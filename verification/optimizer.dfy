/** The query optimizer (`__optimize_tokens`): the top-level tokens are
    sorted, stably, by their length, where a word counts its characters and
    a structured node (a two-element list in the source) counts 2. The sort
    is ascending, so empty words come first and long words last. */
module Optimizer {
  import opened Text
  import opened Structurer

  function Key(t: Tok): nat {
    match t
    case Leaf(s) => |s|
    case _ => 2
  }

  predicate Sorted(ts: seq<Tok>) {
    forall i, j :: 0 <= i < j < |ts| ==> Key(ts[i]) <= Key(ts[j])
  }

  /** `x` placed before the first element whose key is not smaller: every
      element it passes has a smaller key, so it stays ahead of its equals. */
  function Insert(x: Tok, ys: seq<Tok>): (r: seq<Tok>)
    ensures |r| == |ys| + 1
    ensures multiset(r) == multiset(ys) + multiset{x}
  {
    if ys == [] || Key(ys[0]) >= Key(x) then [x] + ys
    else
      Uncons(ys);
      [ys[0]] + Insert(x, ys[1..])
  }

  lemma {:induction false} InsertKeys(x: Tok, ys: seq<Tok>, lo: nat)
    requires Key(x) >= lo && forall k :: 0 <= k < |ys| ==> Key(ys[k]) >= lo
    ensures forall k :: 0 <= k < |Insert(x, ys)| ==> Key(Insert(x, ys)[k]) >= lo
    decreases |ys|
  {
    if ys != [] && Key(ys[0]) < Key(x) {
      InsertKeys(x, ys[1..], lo);
      var r := Insert(x, ys);
      forall k | 0 < k < |r| ensures Key(r[k]) >= lo {
        assert r[k] == Insert(x, ys[1..])[k - 1];
      }
    }
  }

  lemma {:induction false} InsertSorted(x: Tok, ys: seq<Tok>)
    requires Sorted(ys)
    ensures Sorted(Insert(x, ys))
    decreases |ys|
  {
    if ys != [] && Key(ys[0]) < Key(x) {
      var rest := Insert(x, ys[1..]);
      InsertSorted(x, ys[1..]);
      InsertKeys(x, ys[1..], Key(ys[0]));
      SortedCons(ys[0], rest);
    }
  }

  lemma SortedCons(y: Tok, rest: seq<Tok>)
    requires Sorted(rest) && forall k :: 0 <= k < |rest| ==> Key(rest[k]) >= Key(y)
    ensures Sorted([y] + rest)
  {
    var r := [y] + rest;
    forall a, b | 0 <= a < b < |r| ensures Key(r[a]) <= Key(r[b]) {
      assert r[b] == rest[b - 1];
      if a > 0 {
        assert r[a] == rest[a - 1];
      }
    }
  }

  /** Insertion sort; each element is inserted into the sorted rest of the
      list, which all came after it. */
  function Sort(ts: seq<Tok>): (r: seq<Tok>)
    ensures |r| == |ts|
    ensures Sorted(r)
    ensures multiset(r) == multiset(ts)
  {
    if ts == [] then []
    else
      Uncons(ts);
      InsertSorted(ts[0], Sort(ts[1..]));
      Insert(ts[0], Sort(ts[1..]))
  }

  /** The elements of `ts` whose key is `k`, in their order. */
  function WithKey(ts: seq<Tok>, k: nat): seq<Tok> {
    if ts == [] then []
    else (if Key(ts[0]) == k then [ts[0]] else []) + WithKey(ts[1..], k)
  }

  lemma {:induction false} WithKeyConcat(a: seq<Tok>, b: seq<Tok>, k: nat)
    ensures WithKey(a + b, k) == WithKey(a, k) + WithKey(b, k)
    decreases |a|
  {
    if a == [] {
      assert a + b == b;
    } else {
      ConsSplit(a, b);
      WithKeyConcat(a[1..], b, k);
      var h := if Key(a[0]) == k then [a[0]] else [];
      Assoc(h, WithKey(a[1..], k), WithKey(b, k));
    }
  }

  lemma {:induction false} InsertStable(x: Tok, ys: seq<Tok>, k: nat)
    ensures WithKey(Insert(x, ys), k) == WithKey([x] + ys, k)
    decreases |ys|
  {
    if ys == [] || Key(ys[0]) >= Key(x) {
    } else {
      var y, rest := ys[0], ys[1..];
      InsertStable(x, rest, k);
      Uncons(ys);
      WithKeyConcat([y], Insert(x, rest), k);
      WithKeyConcat([x], rest, k);
      WithKeyConcat([x], ys, k);
      WithKeyConcat([y], rest, k);
      SwapApart(WithKey([y], k), WithKey([x], k), WithKey(rest, k));
    }
  }

  /** At most one of two tokens with different keys is kept by `WithKey`, so
      their order does not matter to it. */
  lemma SwapApart(h1: seq<Tok>, h2: seq<Tok>, r: seq<Tok>)
    requires h1 == [] || h2 == []
    ensures h1 + (h2 + r) == h2 + (h1 + r)
  {
    if h1 == [] {
      assert h1 + (h2 + r) == h2 + r;
      assert h1 + r == r;
    } else {
      assert h2 + r == r;
      assert h2 + (h1 + r) == h1 + r;
    }
  }

  /** Stability: among tokens of equal length, the sort keeps the order of
      the input. */
  lemma {:induction false} SortStable(ts: seq<Tok>, k: nat)
    ensures WithKey(Sort(ts), k) == WithKey(ts, k)
    decreases |ts|
  {
    if ts != [] {
      SortStable(ts[1..], k);
      InsertStable(ts[0], Sort(ts[1..]), k);
      WithKeyConcat([ts[0]], Sort(ts[1..]), k);
      WithKeyConcat([ts[0]], ts[1..], k);
      Uncons(ts);
    }
  }

  /** An already sorted list is left as it is. */
  lemma {:induction false} SortSorted(ts: seq<Tok>)
    requires Sorted(ts)
    ensures Sort(ts) == ts
    decreases |ts|
  {
    if ts != [] {
      assert Sorted(ts[1..]);
      SortSorted(ts[1..]);
      if |ts| > 1 {
        assert Key(ts[1..][0]) >= Key(ts[0]);
      }
    }
  }

  /** Empty words come first: only empty words precede one. */
  lemma EmptyWordsFirst(ts: seq<Tok>, i: nat, j: nat)
    requires i < j < |Sort(ts)| && Sort(ts)[j] == Leaf("")
    ensures Sort(ts)[i] == Leaf("")
  {
    assert Key(Sort(ts)[i]) <= Key(Sort(ts)[j]);
  }

  /** Sorting moves tokens around and changes none, so the shape the
      structurer leaves behind survives it. */
  lemma SortKeepsShape(ts: seq<Tok>)
    ensures AllReduced(ts) ==> AllReduced(Sort(ts))
    ensures NoOps(ts) ==> NoOps(Sort(ts))
  {
    var r := Sort(ts);
    forall k | 0 <= k < |r| ensures exists j :: 0 <= j < |ts| && ts[j] == r[k] {
      assert r[k] in multiset(r);
      assert r[k] in multiset(ts);
      assert r[k] in ts;
    }
  }
}
