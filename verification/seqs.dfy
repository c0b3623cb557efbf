/** Sequences used as JavaScript `Set`s: duplicate freedom and the
    first-occurrence de-duplication that `[...new Set(xs)]` performs. */
module Seqs {

  predicate NoDuplicates<T(==, !new)>(s: seq<T>) {
    forall i, j :: 0 <= i < j < |s| ==> s[i] != s[j]
  }

  /** Iterates `rest` in order, adding each element not yet in `seen`:
      the insertion loop behind `new Set(rest)` started from `seen`. */
  function DistinctFrom<T(==, !new)>(seen: seq<T>, rest: seq<T>): (r: seq<T>)
    requires NoDuplicates(seen)
    ensures NoDuplicates(r)
    ensures forall x :: x in r <==> x in seen || x in rest
    ensures |seen| <= |r| <= |seen| + |rest|
    ensures r[..|seen|] == seen
    decreases |rest|
  {
    if rest == [] then seen
    else if rest[0] in seen then DistinctFrom(seen, rest[1..])
    else
      var seen' := seen + [rest[0]];
      var r := DistinctFrom(seen', rest[1..]);
      assert r[..|seen|] == r[..|seen'|][..|seen|];
      r
  }

  /** `[...new Set(s)]`: `s` with later duplicates removed. */
  function Distinct<T(==, !new)>(s: seq<T>): (r: seq<T>)
    ensures NoDuplicates(r)
    ensures forall x :: x in r <==> x in s
    ensures |r| <= |s|
  {
    DistinctFrom([], s)
  }

  lemma {:induction false} DistinctFromSnoc<T(!new)>(seen: seq<T>, rest: seq<T>, x: T)
    requires NoDuplicates(seen)
    ensures DistinctFrom(seen, rest + [x])
         == (var d := DistinctFrom(seen, rest); if x in d then d else d + [x])
    decreases |rest|
  {
    if rest == [] {
      assert rest + [x] == [x];
      assert [x][1..] == [];
    } else {
      assert (rest + [x])[0] == rest[0];
      assert (rest + [x])[1..] == rest[1..] + [x];
      if rest[0] in seen {
        DistinctFromSnoc(seen, rest[1..], x);
      } else {
        DistinctFromSnoc(seen + [rest[0]], rest[1..], x);
      }
    }
  }

  /** First-occurrence order: appending an element either leaves the
      de-duplicated sequence alone (already present) or appends it. */
  lemma DistinctSnoc<T(!new)>(s: seq<T>, x: T)
    ensures Distinct(s + [x]) == if x in s then Distinct(s) else Distinct(s) + [x]
  {
    DistinctFromSnoc([], s, x);
  }

  lemma {:induction false} DistinctFromOfDistinct<T(!new)>(seen: seq<T>, rest: seq<T>)
    requires NoDuplicates(seen + rest)
    ensures NoDuplicates(seen)
    ensures DistinctFrom(seen, rest) == seen + rest
    decreases |rest|
  {
    assert seen == (seen + rest)[..|seen|];
    if rest != [] {
      assert rest[0] == (seen + rest)[|seen|];
      assert rest[0] !in seen by {
        forall i | 0 <= i < |seen| ensures seen[i] != rest[0] {
          assert seen[i] == (seen + rest)[i];
        }
      }
      assert (seen + [rest[0]]) + rest[1..] == seen + rest;
      DistinctFromOfDistinct(seen + [rest[0]], rest[1..]);
    }
  }

  /** De-duplicating a duplicate-free sequence changes nothing; hence
      `Distinct` is idempotent. */
  lemma DistinctOfDistinct<T(!new)>(s: seq<T>)
    requires NoDuplicates(s)
    ensures Distinct(s) == s
  {
    assert [] + s == s;
    DistinctFromOfDistinct([], s);
  }

  lemma {:induction false} DistinctFromAppend<T(!new)>(seen: seq<T>, a: seq<T>, b: seq<T>)
    requires NoDuplicates(seen)
    ensures DistinctFrom(seen, a + b) == DistinctFrom(DistinctFrom(seen, a), b)
    decreases |a|
  {
    if a == [] {
      assert a + b == b;
    } else {
      assert (a + b)[0] == a[0];
      assert (a + b)[1..] == a[1..] + b;
      if a[0] in seen {
        DistinctFromAppend(seen, a[1..], b);
      } else {
        DistinctFromAppend(seen + [a[0]], a[1..], b);
      }
    }
  }

  /** De-duplicating a concatenation first de-duplicates its left part:
      earlier elements keep their first-occurrence positions. */
  lemma DistinctAppend<T(!new)>(a: seq<T>, b: seq<T>)
    ensures Distinct(a + b) == DistinctFrom(Distinct(a), b)
    ensures Distinct(a) <= Distinct(a + b)
  {
    DistinctFromAppend([], a, b);
  }
}

