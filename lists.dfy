/** Sequence operations shared by the table: `indexOf`, `splice`/`push`
    toggles, first-occurrence de-duplication and the stable sort that
    `Array.prototype.sort` performs. */
module Lists {

  /** `Array.prototype.indexOf`: the first position of `x`, or -1. */
  function IndexOf<T(==)>(s: seq<T>, x: T): (r: int)
    ensures -1 <= r < |s|
    ensures r == -1 <==> x !in s
    ensures 0 <= r ==> s[r] == x && x !in s[..r]
  {
    if s == [] then -1
    else if s[0] == x then 0
    else
      var k := IndexOf(s[1..], x);
      if k == -1 then -1
      else
        assert s[..k + 1] == [s[0]] + s[1..][..k];
        k + 1
  }

  /** `s.splice(i, 1)` */
  function RemoveAt<T>(s: seq<T>, i: nat): (r: seq<T>)
    requires i < |s|
    ensures |r| == |s| - 1
    ensures forall k :: 0 <= k < |r| ==> r[k] == if k < i then s[k] else s[k + 1]
    ensures multiset(r) + multiset{s[i]} == multiset(s)
  {
    assert s == s[..i] + [s[i]] + s[i + 1..];
    s[..i] + s[i + 1..]
  }

  /** Remove the first occurrence of `x` if there is one, else append it
      (`pos >= 0 ? list.splice(pos, 1) : list.push(x)`). */
  function Toggle<T(==)>(s: seq<T>, x: T): seq<T>
  {
    var p := IndexOf(s, x);
    if p >= 0 then RemoveAt(s, p) else s + [x]
  }

  ghost predicate NoDuplicates<T>(s: seq<T>)
  {
    forall i, j :: 0 <= i < j < |s| ==> s[i] != s[j]
  }

  /** Toggling an absent value twice gives back exactly the same list. */
  lemma ToggleTwiceRestores<T>(s: seq<T>, x: T)
    requires x !in s
    ensures Toggle(Toggle(s, x), x) == s
  {
    var t := s + [x];
    assert t[..|s|] == s;
    assert IndexOf(t, x) == |s|;
  }

  /** On a list without duplicates, Toggle flips the membership of `x`,
      leaves every other value's membership alone and keeps the list
      free of duplicates. */
  lemma ToggleFlipsMembership<T>(s: seq<T>, x: T)
    requires NoDuplicates(s)
    ensures NoDuplicates(Toggle(s, x))
    ensures x in Toggle(s, x) <==> x !in s
    ensures forall y :: y != x ==> (y in Toggle(s, x) <==> y in s)
  {
    var p := IndexOf(s, x);
    if p >= 0 {
      RemoveDistinct(s, p);
    } else {
      var r := s + [x];
      assert r[|s|] == x;
      assert forall i :: 0 <= i < |s| ==> r[i] == s[i];
    }
  }

  /** Removing one position of a list without duplicates removes exactly
      the value held there. */
  lemma RemoveDistinct<T>(s: seq<T>, p: nat)
    requires NoDuplicates(s) && p < |s|
    ensures NoDuplicates(RemoveAt(s, p))
    ensures forall y :: y in RemoveAt(s, p) <==> y in s && y != s[p]
  {
    var r := RemoveAt(s, p);
    forall i, j | 0 <= i < j < |r| ensures r[i] != r[j] {
      var i' := if i < p then i else i + 1;
      var j' := if j < p then j else j + 1;
      assert r[i] == s[i'] && r[j] == s[j'];
    }
    forall y ensures y in r <==> y in s && y != s[p] {
      if y in r {
        var k :| 0 <= k < |r| && r[k] == y;
        var k' := if k < p then k else k + 1;
        assert s[k'] == y && k' != p;
      }
      if y in s && y != s[p] {
        var k :| 0 <= k < |s| && s[k] == y;
        assert r[if k < p then k else k - 1] == y;
      }
    }
  }

  /** The values of `s`, each once, in the order of their first occurrence:
      the loop `if (list.indexOf(v) < 0) list.push(v)` over `s`. */
  function FirstOccurrences<T(==)>(s: seq<T>): (r: seq<T>)
    ensures NoDuplicates(r)
    ensures forall i :: 0 <= i < |s| ==> s[i] in r
    ensures forall i :: 0 <= i < |r| ==> r[i] in s
    ensures |r| <= |s|
  {
    if s == [] then []
    else
      var init := FirstOccurrences(s[..|s| - 1]);
      var last := s[|s| - 1];
      assert s == s[..|s| - 1] + [last];
      if last in init then init else init + [last]
  }

  /** One more step of the de-duplicating loop over `s`. */
  lemma FirstOccurrencesStep<T>(s: seq<T>, i: nat)
    requires i < |s|
    ensures FirstOccurrences(s[..i + 1]) ==
      if s[i] in FirstOccurrences(s[..i]) then FirstOccurrences(s[..i]) else FirstOccurrences(s[..i]) + [s[i]]
  {
    assert s[..i + 1][..i] == s[..i];
  }

  /** Each value of `s` occurs exactly once in FirstOccurrences(s), and
      nothing else occurs in it. */
  lemma {:induction false} FirstOccurrencesCounts<T>(s: seq<T>)
    ensures forall x :: multiset(FirstOccurrences(s))[x] == if x in s then 1 else 0
  {
    if s != [] {
      var init := s[..|s| - 1];
      var last := s[|s| - 1];
      assert s == init + [last];
      FirstOccurrencesCounts(init);
      forall x ensures x in s <==> x in init || x == last {
      }
    }
  }

  lemma IndexOfPrefix<T>(p: seq<T>, q: seq<T>, y: T)
    requires y in p
    ensures IndexOf(p + q, y) == IndexOf(p, y)
  {
    var k := IndexOf(p, y);
    var r := IndexOf(p + q, y);
    assert forall i :: 0 <= i < r ==> (p + q)[i] != y by {
      assert forall i :: 0 <= i < r ==> (p + q)[..r][i] == (p + q)[i];
    }
    assert forall i :: 0 <= i < k ==> (p + q)[i] != y by {
      assert forall i :: 0 <= i < k ==> p[..k][i] == p[i] == (p + q)[i];
    }
    assert (p + q)[k] == y;
  }

  /** `r` lists values of `s` in the order of their first occurrence. */
  ghost predicate InFirstSeenOrder<T>(s: seq<T>, r: seq<T>)
  {
    forall i, j :: 0 <= i < j < |r| ==> IndexOf(s, r[i]) < IndexOf(s, r[j])
  }

  /** FirstOccurrences lists values in the order in which they are first
      seen in `s`. */
  lemma {:induction false} FirstOccurrencesOrder<T>(s: seq<T>)
    ensures InFirstSeenOrder(s, FirstOccurrences(s))
  {
    if s != [] {
      var init := s[..|s| - 1];
      var last := s[|s| - 1];
      assert s == init + [last];
      FirstOccurrencesOrder(init);
      var r0 := FirstOccurrences(init);
      ExtendSeenOrder(init, r0, last);
      if last !in r0 {
        AppendSeenOrder(init, r0, last);
      }
    }
  }

  /** Appending to the scanned list does not move earlier first
      occurrences. */
  lemma ExtendSeenOrder<T>(init: seq<T>, r0: seq<T>, last: T)
    requires InFirstSeenOrder(init, r0)
    requires forall i :: 0 <= i < |r0| ==> r0[i] in init
    ensures InFirstSeenOrder(init + [last], r0)
  {
    forall y | y in init ensures IndexOf(init + [last], y) == IndexOf(init, y) {
      IndexOfPrefix(init, [last], y);
    }
  }

  /** A value not seen before is first seen last. */
  lemma AppendSeenOrder<T>(init: seq<T>, r0: seq<T>, last: T)
    requires InFirstSeenOrder(init + [last], r0)
    requires forall i :: 0 <= i < |r0| ==> r0[i] in init
    requires last !in r0 && last !in init
    ensures InFirstSeenOrder(init + [last], r0 + [last])
  {
    var s, r := init + [last], r0 + [last];
    assert IndexOf(s, last) == |init| by {
      assert s[..|init|] == init;
    }
    forall i, j | 0 <= i < j < |r| ensures IndexOf(s, r[i]) < IndexOf(s, r[j]) {
      assert r[i] == r0[i];
      if j < |r0| {
        assert r[j] == r0[j];
      } else {
        IndexOfPrefix(init, [last], r0[i]);
      }
    }
  }

  /** The numbers 0, 1, ..., n - 1 in increasing order. */
  function Range(n: nat): (r: seq<nat>)
    ensures |r| == n
    ensures forall i :: 0 <= i < n ==> r[i] == i
  {
    if n == 0 then [] else Range(n - 1) + [n - 1]
  }

  ghost predicate StrictlyIncreasing(s: seq<int>)
  {
    forall i, j :: 0 <= i < j < |s| ==> s[i] < s[j]
  }

  /** `s.map(f)` */
  function Map<T, U>(f: T -> U, s: seq<T>): (r: seq<U>)
    ensures |r| == |s|
    ensures forall i :: 0 <= i < |s| ==> r[i] == f(s[i])
  {
    if s == [] then [] else [f(s[0])] + Map(f, s[1..])
  }

  /** A sequence that agrees with `f` applied at every position is the map. */
  lemma MapPointwise<T, U>(f: T -> U, s: seq<T>, r: seq<U>)
    requires |r| == |s| && forall k :: 0 <= k < |s| ==> r[k] == f(s[k])
    ensures r == Map(f, s)
  {
  }

  lemma MapConcat<T, U>(f: T -> U, s: seq<T>, t: seq<T>)
    ensures Map(f, s + t) == Map(f, s) + Map(f, t)
  {
  }

  /** Extending a prefix by one element adds that element's count. */
  lemma PrefixMultiset<T>(s: seq<T>, n: nat)
    requires 0 < n <= |s|
    ensures multiset(s[..n]) == multiset(s[..n - 1]) + multiset{s[n - 1]}
  {
    assert s[..n] == s[..n - 1] + [s[n - 1]];
  }

  /** Mapping splits around any position. */
  lemma MapSplit<T, U>(f: T -> U, t: seq<T>, j: nat)
    requires j < |t|
    ensures Map(f, t) == Map(f, t[..j]) + [f(t[j])] + Map(f, t[j + 1..])
  {
    var r := Map(f, t[..j]) + [f(t[j])] + Map(f, t[j + 1..]);
    forall k | 0 <= k < |t| ensures r[k] == f(t[k]) {
      if k > j {
        assert r[k] == Map(f, t[j + 1..])[k - j - 1];
      }
    }
    MapPointwise(f, t, r);
  }

  /** Mapping a sequence with one element removed loses exactly that
      element's image. */
  lemma MapRemoveAt<T, U>(f: T -> U, t: seq<T>, j: nat)
    requires j < |t|
    ensures multiset(Map(f, t)) == multiset{f(t[j])} + multiset(Map(f, RemoveAt(t, j)))
  {
    var a, b := t[..j], t[j + 1..];
    MapSplit(f, t, j);
    assert RemoveAt(t, j) == a + b;
    MapConcat(f, a, b);
    var ma, mb := multiset(Map(f, a)), multiset(Map(f, b));
    calc {
      multiset(Map(f, t));
      multiset(Map(f, a) + [f(t[j])] + Map(f, b));
      ma + multiset{f(t[j])} + mb;
      multiset{f(t[j])} + (ma + mb);
    }
    assert multiset(Map(f, RemoveAt(t, j))) == ma + mb;
  }

  lemma UnionSwap<T>(a: multiset<T>, b: multiset<T>)
    ensures a + b == b + a
  {
    forall z ensures (a + b)[z] == (b + a)[z] {
    }
  }

  /** Mapping two sequences that are permutations of each other gives two
      sequences that are permutations of each other. */
  lemma {:induction false} MapPermutation<T, U>(f: T -> U, s: seq<T>, t: seq<T>)
    requires multiset(s) == multiset(t)
    ensures multiset(Map(f, s)) == multiset(Map(f, t))
  {
    if s == [] {
      assert |t| == |multiset(t)| == 0;
    } else {
      var x := s[0];
      assert x in t by {
        assert x in multiset(s);
      }
      var j :| 0 <= j < |t| && t[j] == x;
      var t' := RemoveAt(t, j);
      assert multiset(s[1..]) == multiset(t') by {
        assert s == [x] + s[1..];
        MultisetCancel(multiset(s[1..]), multiset(t'), x);
      }
      MapPermutation(f, s[1..], t');
      MapRemoveAt(f, t, j);
      assert Map(f, s) == [f(x)] + Map(f, s[1..]);
      assert multiset(Map(f, s)) == multiset{f(x)} + multiset(Map(f, s[1..]));
    }
  }

  lemma MultisetCancel<T>(a: multiset<T>, b: multiset<T>, x: T)
    requires a + multiset{x} == b + multiset{x}
    ensures a == b
  {
    forall z ensures a[z] == b[z] {
      assert (a + multiset{x})[z] == (b + multiset{x})[z];
    }
  }

  /** `s` is in order for `le` (every neighbour pair is allowed by `le`). */
  ghost predicate SortedBy<T>(s: seq<T>, le: (T, T) -> bool)
  {
    forall i :: 0 <= i < |s| - 1 ==> le(s[i], s[i + 1])
  }

  /** `le` relates every pair in at least one direction. */
  ghost predicate Total<T(!new)>(le: (T, T) -> bool)
  {
    forall a, b :: le(a, b) || le(b, a)
  }

  /** Put `x` before the first element it may precede. Elements that
      compare equal to `x` stay after it, so a sort built from this keeps
      equal elements in their original order. */
  function Insert<T>(x: T, s: seq<T>, le: (T, T) -> bool): seq<T>
  {
    if s == [] || le(x, s[0]) then [x] + s else [s[0]] + Insert(x, s[1..], le)
  }

  /** A stable sort: the order `Array.prototype.sort` produces with a
      comparator `c` when `le(a, b)` is `c(a, b) <= 0`. */
  function InsertionSort<T>(s: seq<T>, le: (T, T) -> bool): seq<T>
  {
    if s == [] then [] else Insert(s[0], InsertionSort(s[1..], le), le)
  }

  lemma {:induction false} InsertPermutes<T>(x: T, s: seq<T>, le: (T, T) -> bool)
    ensures multiset(Insert(x, s, le)) == multiset{x} + multiset(s)
  {
    if s != [] && !le(x, s[0]) {
      InsertPermutes(x, s[1..], le);
      assert s == [s[0]] + s[1..];
    }
  }

  /** Sorting only reorders: the result is a permutation of the input. */
  lemma {:induction false} SortPermutes<T>(s: seq<T>, le: (T, T) -> bool)
    ensures multiset(InsertionSort(s, le)) == multiset(s)
  {
    if s != [] {
      SortPermutes(s[1..], le);
      InsertPermutes(s[0], InsertionSort(s[1..], le), le);
      assert s == [s[0]] + s[1..];
    }
  }

  /** `le` relates every two elements of `s` in at least one direction. */
  ghost predicate TotalOn<T>(le: (T, T) -> bool, s: seq<T>)
  {
    forall a, b :: a in s && b in s ==> le(a, b) || le(b, a)
  }

  lemma {:induction false} InsertSorted<T>(x: T, s: seq<T>, le: (T, T) -> bool)
    requires forall k :: 0 <= k < |s| ==> le(x, s[k]) || le(s[k], x)
    requires SortedBy(s, le)
    ensures SortedBy(Insert(x, s, le), le)
    ensures |Insert(x, s, le)| == |s| + 1
    ensures s != [] ==> Insert(x, s, le)[0] == x || Insert(x, s, le)[0] == s[0]
    ensures s == [] ==> Insert(x, s, le) == [x]
  {
    if s != [] && !le(x, s[0]) {
      InsertSorted(x, s[1..], le);
      var r := Insert(x, s[1..], le);
      assert le(x, s[0]) || le(s[0], x);
      assert |s| > 1 ==> le(s[0], s[1]);
    }
  }

  /** When `le` orders every two elements of `s` one way or the other, the
      sort puts every neighbour pair in order. */
  lemma {:induction false} SortSorted<T>(s: seq<T>, le: (T, T) -> bool)
    requires TotalOn(le, s)
    ensures SortedBy(InsertionSort(s, le), le)
  {
    if s != [] {
      var tail := InsertionSort(s[1..], le);
      assert TotalOn(le, s[1..]) by {
        forall a | a in s[1..] ensures a in s {
        }
      }
      SortSorted(s[1..], le);
      SortPermutes(s[1..], le);
      forall k | 0 <= k < |tail| ensures le(s[0], tail[k]) || le(tail[k], s[0]) {
        assert tail[k] in multiset(s[1..]) by {
          assert tail[k] in multiset(tail);
        }
        assert tail[k] in s;
      }
      InsertSorted(s[0], tail, le);
    }
  }

  /** `r` keeps elements of equal standing in their original order: when
      an element of lower rank ends up after one of higher rank, it was
      strictly after it by `le`. */
  ghost predicate StableBy<T>(r: seq<T>, le: (T, T) -> bool, rank: T -> int)
  {
    forall a, b :: 0 <= b < a < |r| && rank(r[a]) < rank(r[b]) ==> !le(r[a], r[b])
  }

  /** Inserting an element that ranks below all others keeps the list
      stable. */
  lemma {:induction false} InsertStable<T>(x: T, s: seq<T>, le: (T, T) -> bool, rank: T -> int)
    requires StableBy(s, le, rank)
    requires forall k :: 0 <= k < |s| ==> rank(x) < rank(s[k])
    ensures StableBy(Insert(x, s, le), le, rank)
  {
    if s != [] && !le(x, s[0]) {
      var t := s[1..];
      InsertStable(x, t, le, rank);
      InsertPermutes(x, t, le);
      var r := Insert(x, s, le);
      var inner := Insert(x, t, le);
      assert r == [s[0]] + inner;
      forall a, b | 0 <= b < a < |r| && rank(r[a]) < rank(r[b])
        ensures !le(r[a], r[b])
      {
        if b == 0 {
          assert r[a] == inner[a - 1];
          assert r[a] in multiset{x} + multiset(t) by {
            assert inner[a - 1] in multiset(inner);
          }
          if r[a] != x {
            assert r[a] in t;
            var k :| 0 <= k < |t| && t[k] == r[a];
            assert s[k + 1] == r[a];
          }
        } else {
          assert r[a] == inner[a - 1] && r[b] == inner[b - 1];
        }
      }
    }
  }

  /** With the input listed by increasing rank, the sort is stable:
      elements are only moved past elements they come strictly after. */
  lemma {:induction false} SortStable<T>(s: seq<T>, le: (T, T) -> bool, rank: T -> int)
    requires forall i, j :: 0 <= i < j < |s| ==> rank(s[i]) < rank(s[j])
    ensures StableBy(InsertionSort(s, le), le, rank)
  {
    if s != [] {
      var tail := InsertionSort(s[1..], le);
      SortStable(s[1..], le, rank);
      SortPermutes(s[1..], le);
      forall k | 0 <= k < |tail| ensures rank(s[0]) < rank(tail[k]) {
        assert tail[k] in multiset(s[1..]) by {
          assert tail[k] in multiset(tail);
        }
        var j :| 0 <= j < |s[1..]| && s[1..][j] == tail[k];
        assert s[j + 1] == tail[k];
      }
      InsertStable(s[0], tail, le, rank);
    }
  }

  /** A three-way comparator whose sign flips when its arguments swap. */
  ghost predicate SignAntisymmetric<T(!new)>(cmp: (T, T) -> int)
  {
    forall a, b :: cmp(a, b) < 0 <==> cmp(b, a) > 0
  }

  /** The order in which `Array.prototype.sort` leaves `a` before `b`:
      the comparator, times `factor`, is not positive. */
  function NotAfter<T>(cmp: (T, T) -> int, factor: int): (T, T) -> bool
  {
    (a, b) => cmp(a, b) * factor <= 0
  }

  lemma NotAfterTotal<T(!new)>(cmp: (T, T) -> int, factor: int)
    requires SignAntisymmetric(cmp)
    requires factor == 1 || factor == -1
    ensures Total(NotAfter(cmp, factor))
  {
  }

  /** The first occurrence is unique: a position holding `x` with no `x`
      before it is IndexOf's answer. */
  lemma IndexOfIs<T>(s: seq<T>, x: T, i: nat)
    requires i < |s| && s[i] == x
    requires forall k :: 0 <= k < i ==> s[k] != x
    ensures IndexOf(s, x) == i
  {
    var r := IndexOf(s, x);
    assert forall k :: 0 <= k < r ==> s[k] != x by {
      assert forall k :: 0 <= k < r ==> s[..r][k] == s[k];
    }
  }

  /** The indices below `n` that satisfy `keep`, in increasing order
      (what `filter((_, index) => ...)` keeps). */
  function IndicesWhere(n: nat, keep: nat -> bool): (p: seq<nat>)
    ensures forall j :: 0 <= j < |p| ==> p[j] < n
    ensures StrictlyIncreasing(p)
    ensures forall i :: 0 <= i < n ==> (i in p <==> keep(i))
  {
    if n == 0 then []
    else
      var before := IndicesWhere(n - 1, keep);
      if keep(n - 1) then before + [n - 1] else before
  }

  /** `x` repeated `k` times. */
  function Repeat<T>(x: T, k: nat): (r: seq<T>)
    ensures |r| == k && forall i :: 0 <= i < k ==> r[i] == x
  {
    if k == 0 then [] else Repeat(x, k - 1) + [x]
  }

  /** Predicates that agree below `n` select the same indices. */
  lemma {:induction false} IndicesWhereAgree(n: nat, f: nat -> bool, g: nat -> bool)
    requires forall i :: 0 <= i < n ==> f(i) == g(i)
    ensures IndicesWhere(n, f) == IndicesWhere(n, g)
  {
    if n > 0 {
      IndicesWhereAgree(n - 1, f, g);
    }
  }

  /** No index qualifies, so none is listed. */
  lemma {:induction false} IndicesWhereNone(n: nat, keep: nat -> bool)
    requires forall i :: 0 <= i < n ==> !keep(i)
    ensures IndicesWhere(n, keep) == []
  {
    if n > 0 {
      IndicesWhereNone(n - 1, keep);
    }
  }
}
