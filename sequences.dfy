/**
 * Sequence operations behind the JavaScript array and `Set` calls that the
 * Spotlight dialog uses: `reverse`, `filter`, `includes`, `slice(0, n)`, and
 * the insertion-ordered `Set` (construction, `delete`, `add`).
 */
module Sequences {

  /** No element occurs twice. */
  predicate NoDuplicates<T(==)>(s: seq<T>)
  {
    forall i, j :: 0 <= i < j < |s| ==> s[i] != s[j]
  }

  /** `a` is obtained from `b` by deleting elements: an order-preserving subsequence. */
  ghost predicate IsSubsequence<T>(a: seq<T>, b: seq<T>)
    decreases |b|
  {
    if a == [] then true
    else if b == [] then false
    else (a[0] == b[0] && IsSubsequence(a[1..], b[1..])) || IsSubsequence(a, b[1..])
  }

  // ---------------------------------------------------------------------------
  // Array.prototype.reverse

  function Reverse<T>(s: seq<T>): (r: seq<T>)
    ensures |r| == |s|
    ensures forall k :: 0 <= k < |s| ==> r[k] == s[|s| - 1 - k]
    ensures forall x :: x in r ==> x in s
    ensures forall x :: x in s ==> x in r
  {
    if s == [] then [] else Reverse(s[1..]) + [s[0]]
  }

  lemma ReverseReverse<T>(s: seq<T>)
    ensures Reverse(Reverse(s)) == s
  {
    var r := Reverse(Reverse(s));
    assert forall k :: 0 <= k < |s| ==> r[k] == s[k];
  }

  // ---------------------------------------------------------------------------
  // Array.prototype.filter

  /** The elements of `s` that satisfy `p`, in the order of `s`. */
  function Filter<T>(s: seq<T>, p: T -> bool): (r: seq<T>)
    ensures |r| <= |s|
    ensures forall x :: x in r ==> x in s && p(x)
    ensures forall x :: x in s && p(x) ==> x in r
  {
    if s == [] then []
    else if p(s[0]) then [s[0]] + Filter(s[1..], p)
    else Filter(s[1..], p)
  }

  /** The complement of a filter's test. */
  function Negate<T>(p: T -> bool): T -> bool
  {
    x => !p(x)
  }

  lemma {:induction false} FilterIsSubsequence<T>(s: seq<T>, p: T -> bool)
    ensures IsSubsequence(Filter(s, p), s)
  {
    if s != [] {
      FilterIsSubsequence(s[1..], p);
      var r := Filter(s, p);
      if p(s[0]) {
        assert r[0] == s[0] && r[1..] == Filter(s[1..], p);
      } else if r != [] {
        assert r == Filter(s[1..], p);
      }
    }
  }

  lemma {:induction false} FilterConcat<T>(a: seq<T>, b: seq<T>, p: T -> bool)
    ensures Filter(a + b, p) == Filter(a, p) + Filter(b, p)
  {
    if a != [] {
      assert (a + b)[1..] == a[1..] + b;
      FilterConcat(a[1..], b, p);
    } else {
      assert a + b == b;
    }
  }

  /** Filtering one more element of `s` extends the filtered prefix by that element or by nothing. */
  lemma FilterPrefixStep<T>(s: seq<T>, i: nat, p: T -> bool)
    requires i < |s|
    ensures Filter(s[..i + 1], p) == Filter(s[..i], p) + (if p(s[i]) then [s[i]] else [])
  {
    assert s[..i + 1] == s[..i] + [s[i]];
    FilterConcat(s[..i], [s[i]], p);
  }

  /** A filter and its complement split the input: their lengths add up to the whole. */
  lemma {:induction false} FilterSplitLength<T>(s: seq<T>, p: T -> bool)
    ensures |Filter(s, p)| + |Filter(s, Negate(p))| == |s|
  {
    if s != [] {
      FilterSplitLength(s[1..], p);
    }
  }

  /** Two tests that agree on every element of `s` filter it alike. */
  lemma {:induction false} FilterCongruent<T>(s: seq<T>, p: T -> bool, q: T -> bool)
    requires forall x :: x in s ==> p(x) == q(x)
    ensures Filter(s, p) == Filter(s, q)
  {
    if s != [] {
      FilterCongruent(s[1..], p, q);
    }
  }

  /** A filter that every element passes changes nothing. */
  lemma {:induction false} FilterKeepsAll<T>(s: seq<T>, p: T -> bool)
    requires forall x :: x in s ==> p(x)
    ensures Filter(s, p) == s
  {
    if s != [] {
      FilterKeepsAll(s[1..], p);
    }
  }

  lemma {:induction false} FilterNoDuplicates<T>(s: seq<T>, p: T -> bool)
    ensures NoDuplicates(s) ==> NoDuplicates(Filter(s, p))
  {
    if s != [] && NoDuplicates(s) {
      NoDuplicatesCons(s[0], s[1..]);
      FilterNoDuplicates(s[1..], p);
      if p(s[0]) {
        NoDuplicatesCons(s[0], Filter(s[1..], p));
      }
    }
  }

  // ---------------------------------------------------------------------------
  // Facts about NoDuplicates

  lemma NoDuplicatesCons<T>(x: T, s: seq<T>)
    ensures NoDuplicates([x] + s) <==> x !in s && NoDuplicates(s)
  {
    var t := [x] + s;
    if NoDuplicates(t) {
      forall i, j | 0 <= i < j < |s| ensures s[i] != s[j] {
        assert s[i] == t[i + 1] && s[j] == t[j + 1];
      }
      forall k | 0 <= k < |s| ensures s[k] != x {
        assert s[k] == t[k + 1] && x == t[0];
      }
    }
  }

  lemma NoDuplicatesSnoc<T>(s: seq<T>, x: T)
    ensures NoDuplicates(s + [x]) <==> x !in s && NoDuplicates(s)
  {
    var t := s + [x];
    if NoDuplicates(t) {
      assert forall i :: 0 <= i < |s| ==> s[i] == t[i];
      forall k | 0 <= k < |s| ensures s[k] != x {
        assert s[k] == t[k] && x == t[|s|];
      }
    }
  }

  /** A slice of a duplicate-free sequence is duplicate-free. */
  lemma NoDuplicatesSlice<T>(s: seq<T>, i: nat, j: nat)
    requires i <= j <= |s|
    ensures NoDuplicates(s) ==> NoDuplicates(s[i..j])
  {
    var t := s[i..j];
    assert forall k :: 0 <= k < |t| ==> t[k] == s[i + k];
  }

  // ---------------------------------------------------------------------------
  // The insertion-ordered JavaScript `Set` of strings, held as a sequence
  // without duplicates in insertion order.

  /** `set.add(x)`: appends `x` unless it is present, where it keeps its place. */
  function AddLast<T(==)>(s: seq<T>, x: T): (r: seq<T>)
    ensures x in r
    ensures |r| == if x in s then |s| else |s| + 1
  {
    if x in s then s else s + [x]
  }

  /** `add` keeps every element and its place, adds only `x`, and keeps the set duplicate-free. */
  lemma AddLastElements<T>(s: seq<T>, x: T)
    ensures s <= AddLast(s, x)
    ensures forall y :: y in AddLast(s, x) ==> y in s || y == x
    ensures forall y :: y in s ==> y in AddLast(s, x)
    ensures NoDuplicates(s) ==> NoDuplicates(AddLast(s, x))
  {
    NoDuplicatesSnoc(s, x);
  }

  /** The test "is not `x`". */
  function Other<T(==)>(x: T): T -> bool
  {
    y => y != x
  }

  /** `set.delete(x)`: the other elements keep their order. */
  function Remove<T(==)>(s: seq<T>, x: T): (r: seq<T>)
    ensures x !in r
    ensures |r| <= |s|
  {
    Filter(s, Other(x))
  }

  /** `delete` keeps exactly the other elements, in order, and keeps the set duplicate-free. */
  lemma RemoveElements<T>(s: seq<T>, x: T)
    ensures forall y :: y in Remove(s, x) ==> y in s && y != x
    ensures forall y :: y in s && y != x ==> y in Remove(s, x)
    ensures NoDuplicates(s) ==> NoDuplicates(Remove(s, x))
    ensures IsSubsequence(Remove(s, x), s)
  {
    FilterIsSubsequence(s, Other(x));
    FilterNoDuplicates(s, Other(x));
  }

  /** Deleting an absent element changes nothing. */
  lemma RemoveAbsent<T>(s: seq<T>, x: T)
    requires x !in s
    ensures Remove(s, x) == s
  {
    FilterKeepsAll(s, Other(x));
  }

  lemma {:induction false} RemoveLength<T>(s: seq<T>, x: T)
    requires NoDuplicates(s)
    ensures |Remove(s, x)| == if x in s then |s| - 1 else |s|
  {
    if x !in s {
      RemoveAbsent(s, x);
    } else if s != [] {
      NoDuplicatesCons(s[0], s[1..]);
      assert s == [s[0]] + s[1..];
      if s[0] == x {
        RemoveAbsent(s[1..], x);
      } else {
        RemoveLength(s[1..], x);
      }
    }
  }

  /** Deleting from a concatenation deletes from each part. */
  lemma RemoveConcat<T>(a: seq<T>, b: seq<T>, x: T)
    ensures Remove(a + b, x) == Remove(a, x) + Remove(b, x)
  {
    FilterConcat(a, b, Other(x));
  }

  /** `new Set(s)`: adds the elements of `s` one by one, so the first occurrence of each stays. */
  function Dedup<T(==)>(s: seq<T>): (r: seq<T>)
    ensures |r| <= |s|
  {
    AddAll([], s)
  }

  /** Adds the elements of `s` to the set `acc` one by one, in order. */
  function AddAll<T(==)>(acc: seq<T>, s: seq<T>): (r: seq<T>)
    ensures |r| <= |acc| + |s|
    decreases |s|
  {
    if s == [] then acc else AddAll(AddLast(acc, s[0]), s[1..])
  }

  /** Adding elements keeps the set's elements in place, adds only elements of `s`, and keeps it duplicate-free. */
  lemma {:induction false} AddAllElements<T>(acc: seq<T>, s: seq<T>)
    ensures acc <= AddAll(acc, s)
    ensures NoDuplicates(acc) ==> NoDuplicates(AddAll(acc, s))
    ensures forall y :: y in AddAll(acc, s) ==> y in acc || y in s
    ensures forall y :: y in acc || y in s ==> y in AddAll(acc, s)
    decreases |s|
  {
    if s != [] {
      var next := AddLast(acc, s[0]);
      AddLastElements(acc, s[0]);
      AddAllElements(next, s[1..]);
      assert forall y :: y in s ==> y == s[0] || y in s[1..];
    }
  }

  /** The set has no duplicates and exactly the elements of `s`. */
  lemma DedupElements<T>(s: seq<T>)
    ensures NoDuplicates(Dedup(s))
    ensures forall y :: y in Dedup(s) ==> y in s
    ensures forall y :: y in s ==> y in Dedup(s)
  {
    AddAllElements([], s);
  }

  /** Adding elements that are new and distinct appends them. */
  lemma {:induction false} AddAllFresh<T>(acc: seq<T>, s: seq<T>)
    requires NoDuplicates(acc + s)
    ensures AddAll(acc, s) == acc + s
    decreases |s|
  {
    if s != [] {
      var t := acc + s;
      assert s[0] !in acc by {
        forall k | 0 <= k < |acc| ensures acc[k] != s[0] {
          assert acc[k] == t[k] && s[0] == t[|acc|];
        }
      }
      assert (acc + [s[0]]) + s[1..] == t;
      AddAllFresh(acc + [s[0]], s[1..]);
    }
  }

  lemma DedupOfNoDuplicates<T>(s: seq<T>)
    requires NoDuplicates(s)
    ensures Dedup(s) == s
  {
    assert [] + s == s;
    AddAllFresh([], s);
  }

  // ---------------------------------------------------------------------------
  // Array.prototype.slice(0, n)

  /** The first `n` elements, or all of them when there are fewer. */
  function Take<T>(s: seq<T>, n: nat): (r: seq<T>)
    ensures |r| <= n && r <= s
    ensures |s| <= n ==> r == s
    ensures |s| >= n ==> |r| == n
  {
    if |s| <= n then s else s[..n]
  }

  /** The last `n` elements, or all of them when there are fewer: `slice(-n)`. */
  function TakeLast<T>(s: seq<T>, n: nat): (r: seq<T>)
    ensures |r| <= n && |r| <= |s|
    ensures r == s[|s| - |r|..]
    ensures |s| <= n ==> r == s
    ensures |s| >= n ==> |r| == n
  {
    if |s| <= n then s else s[|s| - n..]
  }

  /** Keeping the last elements keeps the last one, adds nothing, and keeps a set duplicate-free. */
  lemma TakeLastElements<T>(s: seq<T>, n: nat)
    requires 0 < n
    ensures s != [] ==> TakeLast(s, n) != [] && TakeLast(s, n)[|TakeLast(s, n)| - 1] == s[|s| - 1]
    ensures forall x :: x in TakeLast(s, n) ==> x in s
    ensures NoDuplicates(s) ==> NoDuplicates(TakeLast(s, n))
  {
    var r := TakeLast(s, n);
    NoDuplicatesSlice(s, |s| - |r|, |s|);
    assert forall k :: 0 <= k < |r| ==> r[k] == s[|s| - |r| + k];
  }

  // ---------------------------------------------------------------------------
  // String.prototype.includes

  /** `needle` occurs in `hay` starting at index `i`. */
  predicate OccursAt<T(==)>(hay: seq<T>, needle: seq<T>, i: int)
  {
    0 <= i && i + |needle| <= |hay| && hay[i..i + |needle|] == needle
  }

  /** `hay.includes(needle)`: `needle` is a prefix of some suffix of `hay`. */
  predicate Contains<T(==)>(hay: seq<T>, needle: seq<T>)
    decreases |hay|
  {
    needle <= hay || (hay != [] && Contains(hay[1..], needle))
  }

  /** The empty string is contained in every string. */
  lemma ContainsEmpty<T>(hay: seq<T>)
    ensures Contains(hay, [])
  {
  }

  /** Contains agrees with the index-based definition of a substring. */
  lemma {:induction false} ContainsIffOccurs<T>(hay: seq<T>, needle: seq<T>)
    ensures Contains(hay, needle) <==> exists i :: OccursAt(hay, needle, i)
    decreases |hay|
  {
    if needle <= hay {
      assert OccursAt(hay, needle, 0);
    } else if hay != [] {
      ContainsIffOccurs(hay[1..], needle);
      if exists i :: OccursAt(hay[1..], needle, i) {
        var i :| OccursAt(hay[1..], needle, i);
        assert hay[i + 1..i + 1 + |needle|] == hay[1..][i..i + |needle|];
        assert OccursAt(hay, needle, i + 1);
      }
      forall i | OccursAt(hay, needle, i) ensures OccursAt(hay[1..], needle, i - 1) {
        assert i != 0;
        assert hay[1..][i - 1..i - 1 + |needle|] == hay[i..i + |needle|];
      }
    }
  }
}
