/** Sequences of records addressed by a string key: the first-match
    lookup, the upsert and the in-place update both JSON repositories
    perform, and the order-preserving filter their queries use. */
module KeyedList {
  import opened Results

  /** `i` is the position of the first element keyed `id`. */
  ghost predicate IsFirstMatch<T>(s: seq<T>, key: T -> string, id: string, i: int) {
    0 <= i < |s| && key(s[i]) == id && forall j :: 0 <= j < i ==> key(s[j]) != id
  }

  /** No element is keyed `id`. */
  ghost predicate NoMatch<T>(s: seq<T>, key: T -> string, id: string) {
    forall j :: 0 <= j < |s| ==> key(s[j]) != id
  }

  /** `after` is `before` with position `i` replaced by `x` and every
      other position as it was. */
  ghost predicate ReplacedAt<T>(before: seq<T>, after: seq<T>, i: int, x: T) {
    && 0 <= i < |before|
    && |after| == |before|
    && after[i] == x
    && forall j :: 0 <= j < |before| && j != i ==> after[j] == before[j]
  }

  /** The upsert relation: replace the first element with `x`'s key in
      place, or append `x` when there is none. */
  ghost predicate IsUpsert<T>(before: seq<T>, after: seq<T>, key: T -> string, x: T) {
    && (forall i :: IsFirstMatch(before, key, key(x), i) ==> ReplacedAt(before, after, i, x))
    && (NoMatch(before, key, key(x)) ==> after == before + [x])
  }

  ghost predicate UniqueKeys<T>(s: seq<T>, key: T -> string) {
    forall i, j :: 0 <= i < j < |s| ==> key(s[i]) != key(s[j])
  }

  lemma FirstMatchUnique<T>(s: seq<T>, key: T -> string, id: string, i: int, i': int)
    requires IsFirstMatch(s, key, id, i) && IsFirstMatch(s, key, id, i')
    ensures i == i'
  {
  }

  /** The front-to-back scan for the first element keyed `id`. */
  function FindFirst<T>(s: seq<T>, key: T -> string, id: string): (r: Option<nat>)
    ensures r.Some? ==> IsFirstMatch(s, key, id, r.value)
    ensures r.None? ==> NoMatch(s, key, id)
    decreases |s|
  {
    if |s| == 0 then None
    else if key(s[0]) == id then Some(0)
    else
      match FindFirst(s[1..], key, id)
      case None => None
      case Some(i) => Some(i + 1)
  }

  /** Insert-or-replace by key. */
  function Upsert<T>(s: seq<T>, key: T -> string, x: T): (r: seq<T>)
    ensures IsUpsert(s, r, key, x)
  {
    match FindFirst(s, key, key(x))
    case Some(i) =>
      assert forall i' :: IsFirstMatch(s, key, key(x), i') ==> i' == i by {
        forall i' | IsFirstMatch(s, key, key(x), i') {
          FirstMatchUnique(s, key, key(x), i, i');
        }
      }
      s[i := x]
    case None => s + [x]
  }

  /** Replace-only by key: fails when no element has `x`'s key. */
  function Replace<T>(s: seq<T>, key: T -> string, x: T): (r: Option<seq<T>>)
    ensures r.None? <==> NoMatch(s, key, key(x))
    ensures forall i :: IsFirstMatch(s, key, key(x), i) ==> r.Some? && ReplacedAt(s, r.value, i, x)
  {
    match FindFirst(s, key, key(x))
    case Some(i) =>
      assert forall i' :: IsFirstMatch(s, key, key(x), i') ==> i' == i by {
        forall i' | IsFirstMatch(s, key, key(x), i') {
          FirstMatchUnique(s, key, key(x), i, i');
        }
      }
      Some(s[i := x])
    case None => None
  }

  /** After an upsert, looking up `x`'s key finds `x`. */
  lemma FindAfterUpsert<T>(s: seq<T>, key: T -> string, x: T)
    ensures var r := Upsert(s, key, x);
      FindFirst(r, key, key(x)).Some? && r[FindFirst(r, key, key(x)).value] == x
  {
    var r := Upsert(s, key, x);
    match FindFirst(s, key, key(x))
    case Some(i) =>
      assert IsFirstMatch(r, key, key(x), i);
      FirstMatchUnique(r, key, key(x), i, FindFirst(r, key, key(x)).value);
    case None =>
      assert IsFirstMatch(r, key, key(x), |s|);
      FirstMatchUnique(r, key, key(x), |s|, FindFirst(r, key, key(x)).value);
  }

  /** A write under one key leaves the lookup of every other key alone:
      the same position, holding the same element. */
  lemma WriteKeepsOtherLookups<T>(s: seq<T>, r: seq<T>, key: T -> string, x: T, id: string)
    requires IsUpsert(s, r, key, x)
    requires id != key(x)
    ensures FindFirst(r, key, id) == FindFirst(s, key, id)
  {
    match FindFirst(s, key, key(x))
    case Some(i) =>
      assert ReplacedAt(s, r, i, x);
      FirstLookupsAgree(s, r, key, id, i);
    case None =>
      assert r == s + [x];
      FirstLookupsAgree(s, r, key, id, |s|);
  }

  /** Two sequences that agree except at one position (or one appended
      element) whose key differs from `id` give the same lookup of `id`. */
  lemma FirstLookupsAgree<T>(s: seq<T>, r: seq<T>, key: T -> string, id: string, i: int)
    requires 0 <= i <= |s| && |s| <= |r| <= |s| + 1
    requires i == |s| ==> |r| == |s| + 1
    requires i < |s| ==> |r| == |s|
    requires i < |r| ==> key(r[i]) != id
    requires i < |s| ==> key(s[i]) != id
    requires forall j :: 0 <= j < |s| && j != i ==> r[j] == s[j]
    ensures FindFirst(r, key, id) == FindFirst(s, key, id)
  {
    var fs, fr := FindFirst(s, key, id), FindFirst(r, key, id);
    if fs.Some? {
      assert IsFirstMatch(r, key, id, fs.value);
      FirstMatchUnique(r, key, id, fs.value, fr.value);
    }
  }

  /** Upserting keeps keys pairwise distinct. */
  lemma UpsertKeepsKeysUnique<T>(s: seq<T>, key: T -> string, x: T)
    requires UniqueKeys(s, key)
    ensures UniqueKeys(Upsert(s, key, x), key)
  {
    var r := Upsert(s, key, x);
    match FindFirst(s, key, key(x))
    case Some(i) =>
      assert ReplacedAt(s, r, i, x);
      forall a, b | 0 <= a < b < |r|
        ensures key(r[a]) != key(r[b])
      {
        if a != i && b != i {
          assert r[a] == s[a] && r[b] == s[b];
        }
      }
    case None =>
  }

  /** Elements of `s` that satisfy `p`, in their stored order. */
  function Filter<T(!new)>(s: seq<T>, p: T -> bool): (r: seq<T>)
    ensures |r| <= |s|
    ensures forall i :: 0 <= i < |r| ==> p(r[i])
    ensures forall x :: multiset(r)[x] == if p(x) then multiset(s)[x] else 0
    decreases |s|
  {
    if |s| == 0 then []
    else
      var rest := Filter(s[1..], p);
      assert s == [s[0]] + s[1..];
      (if p(s[0]) then [s[0]] else []) + rest
  }

  /** `a` is `b` with some elements left out, the rest in order. */
  ghost predicate IsSubsequence<T>(a: seq<T>, b: seq<T>)
    decreases |b|
  {
    if |a| == 0 then true
    else if |b| == 0 then false
    else (a[0] == b[0] && IsSubsequence(a[1..], b[1..])) || IsSubsequence(a, b[1..])
  }

  /** The filter keeps the stored order. */
  lemma {:induction false} FilterKeepsOrder<T(!new)>(s: seq<T>, p: T -> bool)
    ensures IsSubsequence(Filter(s, p), s)
    decreases |s|
  {
    if |s| > 0 {
      FilterKeepsOrder(s[1..], p);
      var r := Filter(s, p);
      if p(s[0]) {
        assert r[0] == s[0] && r[1..] == Filter(s[1..], p);
      } else {
        assert r == Filter(s[1..], p);
      }
    }
  }

  /** A stored element is in the filter's result exactly when it
      satisfies the predicate. */
  lemma FilterMembership<T(!new)>(s: seq<T>, p: T -> bool, x: T)
    ensures x in Filter(s, p) <==> x in s && p(x)
  {
    var r := Filter(s, p);
    assert x in r <==> multiset(r)[x] > 0;
    assert x in s <==> multiset(s)[x] > 0;
  }
}
