/** Small shared vocabulary: optional values, fixed-width integers and the
    order-preserving sequence operations the rest of the model is built on. */
module Common {

  /** A C pointer that may be NULL, or a value that may be absent. */
  datatype Option<+T> = None | Some(value: T)

  const UINT32_LIMIT: int := 0x1_0000_0000

  /** C `guint32`. */
  type uint32 = x: int | 0 <= x < UINT32_LIMIT

  /** C `guint8` / `guchar`. */
  type uint8 = x: int | 0 <= x < 256

  /** `sub` is obtained from `s` by deleting elements, without reordering
      the ones that remain (greedy left-to-right matching). */
  predicate IsSubsequence<T(==)>(sub: seq<T>, s: seq<T>)
    decreases |s|
  {
    if |sub| == 0 then true
    else if |s| == 0 then false
    else if sub[0] == s[0] then IsSubsequence(sub[1..], s[1..])
    else IsSubsequence(sub, s[1..])
  }

  /** The elements of `s` that satisfy `p`, in their original order. */
  function Filter<T(==,!new)>(s: seq<T>, p: T -> bool): (r: seq<T>)
    ensures |r| <= |s|
    ensures forall i :: 0 <= i < |r| ==> p(r[i])
    ensures forall x :: x in r <==> x in s && p(x)
  {
    if |s| == 0 then []
    else if p(s[0]) then [s[0]] + Filter(s[1..], p)
    else Filter(s[1..], p)
  }

  /** Filter only deletes: what it keeps stays in its original order. */
  lemma {:induction false} FilterIsSubsequence<T(!new)>(s: seq<T>, p: T -> bool)
    ensures IsSubsequence(Filter(s, p), s)
    decreases |s|
  {
    if |s| > 0 {
      FilterIsSubsequence(s[1..], p);
      var rest := Filter(s[1..], p);
      if p(s[0]) {
        assert ([s[0]] + rest)[1..] == rest;
      } else {
        assert |rest| > 0 ==> rest[0] != s[0];
      }
    }
  }

  /** Filter keeps every occurrence of a passing value and none of a
      failing one. */
  lemma {:induction false} FilterCounts<T(!new)>(s: seq<T>, p: T -> bool, x: T)
    ensures multiset(Filter(s, p))[x] == if p(x) then multiset(s)[x] else 0
    decreases |s|
  {
    if |s| > 0 {
      FilterCounts(s[1..], p, x);
      assert s == [s[0]] + s[1..];
      assert multiset(s) == multiset{s[0]} + multiset(s[1..]);
      if p(s[0]) {
        assert multiset([s[0]] + Filter(s[1..], p)) == multiset{s[0]} + multiset(Filter(s[1..], p));
      }
    }
  }

  /** No value occurs twice. */
  predicate NoDuplicates<T(==)>(s: seq<T>) {
    forall i, j :: 0 <= i < j < |s| ==> s[i] != s[j]
  }

  /** Appends `x` unless an equal value is already present: the
      content-deduplicating append of the DNS-style lists. */
  function AppendUnique<T(==,!new)>(xs: seq<T>, x: T): (r: seq<T>)
    ensures x in r
    ensures forall y :: y in r <==> y in xs || y == x
    ensures |xs| <= |r| <= |xs| + 1
    ensures r[..|xs|] == xs
    ensures |r| == |xs| <==> x in xs
  {
    if x in xs then xs else xs + [x]
  }

  lemma AppendUniqueKeepsNoDuplicates<T(!new)>(xs: seq<T>, x: T)
    requires NoDuplicates(xs)
    ensures NoDuplicates(AppendUnique(xs, x))
  {
  }

  /** Appends every element of `ys`, in order, each only if not yet present. */
  function AppendAllUnique<T(==,!new)>(xs: seq<T>, ys: seq<T>): (r: seq<T>)
    ensures forall y :: y in r <==> y in xs || y in ys
    ensures |xs| <= |r| <= |xs| + |ys|
    ensures r[..|xs|] == xs
    decreases |ys|
  {
    if |ys| == 0 then xs
    else
      var step := AppendUnique(xs, ys[0]);
      var r := AppendAllUnique(step, ys[1..]);
      assert ys == [ys[0]] + ys[1..];
      assert r[..|xs|] == r[..|step|][..|xs|] == step[..|xs|];
      r
  }

  lemma {:induction false} AppendAllUniqueKeepsNoDuplicates<T(!new)>(xs: seq<T>, ys: seq<T>)
    requires NoDuplicates(xs)
    ensures NoDuplicates(AppendAllUnique(xs, ys))
    decreases |ys|
  {
    if |ys| > 0 {
      AppendUniqueKeepsNoDuplicates(xs, ys[0]);
      AppendAllUniqueKeepsNoDuplicates(AppendUnique(xs, ys[0]), ys[1..]);
    }
  }

  /** The values of `ys` not in `seen`, each once, in the order they first
      occur: what AppendAllUnique puts after `seen`. */
  function Fresh<T(==)>(seen: seq<T>, ys: seq<T>): (t: seq<T>)
    ensures |t| <= |ys|
    decreases |ys|
  {
    if |ys| == 0 then []
    else if ys[0] in seen then Fresh(seen, ys[1..])
    else [ys[0]] + Fresh(seen + [ys[0]], ys[1..])
  }

  /** What AppendAllUnique adds after `xs` is exactly the values of `ys`
      missing from `xs`, each once, in the order in which they first occur
      in `ys`: wherever a later-added value occurs in `ys`, every
      earlier-added one has already occurred. */
  lemma AppendAllUniqueTail<T(!new)>(xs: seq<T>, ys: seq<T>)
    ensures AppendAllUnique(xs, ys) == xs + Fresh(xs, ys)
    ensures forall v :: v in Fresh(xs, ys) <==> v in ys && v !in xs
    ensures NoDuplicates(Fresh(xs, ys))
    ensures forall i, j, q :: 0 <= i < j < |Fresh(xs, ys)| && 0 <= q < |ys| && ys[q] == Fresh(xs, ys)[j] ==>
              Fresh(xs, ys)[i] in ys[..q]
  {
    AppendAllUniqueIsFresh(xs, ys);
    FreshNoDuplicates(xs, ys);
    var t := Fresh(xs, ys);
    forall v
      ensures v in t <==> v in ys && v !in xs
    {
      FreshHas(xs, ys, v);
    }
    forall i, j, q | 0 <= i < j < |t| && 0 <= q < |ys| && ys[q] == t[j]
      ensures t[i] in ys[..q]
    {
      FreshOrder(xs, ys, i, j, q);
    }
  }

  lemma {:induction false} AppendAllUniqueIsFresh<T(!new)>(xs: seq<T>, ys: seq<T>)
    ensures AppendAllUnique(xs, ys) == xs + Fresh(xs, ys)
    decreases |ys|
  {
    if |ys| > 0 {
      var y := ys[0];
      var step := AppendUnique(xs, y);
      assert AppendAllUnique(xs, ys) == AppendAllUnique(step, ys[1..]);
      AppendAllUniqueIsFresh(step, ys[1..]);
      if y in xs {
        assert step == xs;
      } else {
        var f := Fresh(step, ys[1..]);
        assert step == xs + [y] && Fresh(xs, ys) == [y] + f;
        assert (xs + [y]) + f == xs + ([y] + f);
      }
    }
  }

  lemma {:induction false} FreshHas<T>(seen: seq<T>, ys: seq<T>, v: T)
    ensures v in Fresh(seen, ys) <==> v in ys && v !in seen
    decreases |ys|
  {
    if |ys| > 0 {
      var y := ys[0];
      assert v in ys <==> v == y || v in ys[1..] by {
        assert ys == [y] + ys[1..];
      }
      if y in seen {
        FreshHas(seen, ys[1..], v);
      } else {
        FreshHas(seen + [y], ys[1..], v);
      }
    }
  }

  lemma {:induction false} FreshNoDuplicates<T>(seen: seq<T>, ys: seq<T>)
    ensures NoDuplicates(Fresh(seen, ys))
    decreases |ys|
  {
    if |ys| > 0 {
      var y := ys[0];
      if y in seen {
        FreshNoDuplicates(seen, ys[1..]);
      } else {
        var t1 := Fresh(seen + [y], ys[1..]);
        FreshNoDuplicates(seen + [y], ys[1..]);
        forall k | 0 <= k < |t1|
          ensures t1[k] != y
        {
          FreshHas(seen + [y], ys[1..], t1[k]);
        }
      }
    }
  }

  lemma {:induction false} FreshOrder<T>(seen: seq<T>, ys: seq<T>, i: nat, j: nat, q: nat)
    requires i < j < |Fresh(seen, ys)| && q < |ys| && ys[q] == Fresh(seen, ys)[j]
    ensures Fresh(seen, ys)[i] in ys[..q]
    decreases |ys|
  {
    var y := ys[0];
    if y in seen {
      var t1 := Fresh(seen, ys[1..]);
      FreshHas(seen, ys[1..], t1[j]);
      assert q > 0 && ys[1..][q - 1] == t1[j];
      FreshOrder(seen, ys[1..], i, j, q - 1);
      InPrefixShift(ys, q, t1[i]);
    } else {
      var t1 := Fresh(seen + [y], ys[1..]);
      FreshHas(seen + [y], ys[1..], t1[j - 1]);
      assert q > 0 && ys[1..][q - 1] == t1[j - 1];
      if i == 0 {
        assert ys[..q][0] == y;
      } else {
        FreshOrder(seen + [y], ys[1..], i - 1, j - 1, q - 1);
        InPrefixShift(ys, q, t1[i - 1]);
      }
    }
  }

  /** What occurs in `s[1..]` before position `q - 1` occurs in `s` before `q`. */
  lemma InPrefixShift<T>(s: seq<T>, q: nat, x: T)
    requires 0 < q <= |s| && x in s[1..][..q - 1]
    ensures x in s[..q]
  {
    assert s[..q] == [s[0]] + s[1..][..q - 1];
  }
}
