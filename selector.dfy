/** The top-n selector `reverse_list_sort` of src/recommendations.py, which
    every ranking and recommendation output goes through, together with the
    ordering Python uses on its `(score, title)` tuples. */
module Selector {
  import opened PyValues

  /** A Python `(score, title)` tuple. Scores are exact: an out-degree is
      stored as `d as real`, a similarity as the exact ratio. */
  datatype Pair = Pair(score: real, title: string)

  /** Python's `<` on `(score, title)` tuples: by score, then by title. */
  predicate PairLess(p: Pair, q: Pair)
  {
    p.score < q.score || (p.score == q.score && StrLess(p.title, q.title))
  }

  /** Python's `<=` on the same tuples. */
  predicate PairLe(p: Pair, q: Pair)
  {
    !PairLess(q, p)
  }

  lemma PairLessIrreflexive(p: Pair)
    ensures !PairLess(p, p)
  {
    StrLessIrreflexive(p.title);
  }

  lemma PairLessTransitive(p: Pair, q: Pair, r: Pair)
    requires PairLess(p, q) && PairLess(q, r)
    ensures PairLess(p, r)
  {
    if p.score == q.score == r.score {
      StrLessTransitive(p.title, q.title, r.title);
    }
  }

  /** The tuple order is total: two different tuples are always ordered. */
  lemma PairLessTotal(p: Pair, q: Pair)
    requires p != q
    ensures PairLess(p, q) || PairLess(q, p)
  {
    if p.score == q.score {
      StrLessTotal(p.title, q.title);
    }
  }

  lemma PairLessAsymmetric(p: Pair, q: Pair)
    requires PairLess(p, q)
    ensures !PairLess(q, p)
  {
    if PairLess(q, p) {
      PairLessTransitive(p, q, p);
      PairLessIrreflexive(p);
    }
  }

  lemma PairLeTransitive(p: Pair, q: Pair, r: Pair)
    requires PairLe(p, q) && PairLe(q, r)
    ensures PairLe(p, r)
  {
    if PairLess(r, p) {
      if p == q {
      } else {
        PairLessTotal(p, q);
        PairLessTransitive(r, p, q);
      }
    }
  }

  /** Of two different tuples related by `<=`, the first is strictly less. */
  lemma PairLeDistinct(p: Pair, q: Pair)
    requires PairLe(p, q) && p != q
    ensures PairLess(p, q)
  {
    PairLessTotal(p, q);
  }

  /** Ascending in the tuple order, as `lst.sort()` leaves a list. */
  ghost predicate Ascending(s: seq<Pair>)
  {
    forall i, j :: 0 <= i < j < |s| ==> PairLe(s[i], s[j])
  }

  ghost predicate StrictlyDescending(s: seq<Pair>)
  {
    forall i, j :: 0 <= i < j < |s| ==> PairLess(s[j], s[i])
  }

  /** `lst.sort()`: sorts the list in place, ascending in the tuple order.
      An insertion sort stands in for the library's algorithm; since the
      order is total, every correct sort leaves the same list. */
  method SortInPlace(a: array<Pair>)
    modifies a
    ensures Ascending(a[..])
    ensures multiset(a[..]) == multiset(old(a[..]))
  {
    var i := 0;
    while i < a.Length
      invariant 0 <= i <= a.Length
      invariant forall k, l :: 0 <= k < l < i ==> PairLe(a[k], a[l])
      invariant multiset(a[..]) == multiset(old(a[..]))
    {
      var j := i;
      while j > 0 && PairLess(a[j], a[j - 1])
        invariant 0 <= j <= i
        invariant forall k, l :: 0 <= k < l <= i && k != j && l != j ==> PairLe(a[k], a[l])
        invariant forall l :: j < l <= i ==> PairLess(a[j], a[l])
        invariant multiset(a[..]) == multiset(old(a[..]))
      {
        a[j - 1], a[j] := a[j], a[j - 1];
        j := j - 1;
      }
      forall k, l | 0 <= k < l <= i
        ensures PairLe(a[k], a[l])
      {
        if l == j && k < j - 1 {
          PairLeTransitive(a[k], a[j - 1], a[j]);
        } else if k == j {
          PairLessAsymmetric(a[j], a[l]);
        }
      }
      i := i + 1;
    }
  }

  /** The last `k` elements of `s`, the last one first. */
  function LastReversed(s: seq<Pair>, k: nat): seq<Pair>
    requires k <= |s|
  {
    seq(k, i requires 0 <= i < k => s[|s| - 1 - i])
  }

  /** `reverse_list_sort(lst, n)`: sorts `lst` in place, clamps `n` to the
      list's length and reads the list backwards with Python's negative
      indices, `lst[-1]`, `lst[-2]`, ... down to `lst[-n]`. For `n == 0` the
      loop does not run; for `n < 0` its exit count `-n - 1` is never reached
      and the walk runs off the front of the list. */
  method ReverseListSort(lst: array<Pair>, n: int) returns (r: Result<seq<Pair>>)
    modifies lst
    ensures Ascending(lst[..])
    ensures multiset(lst[..]) == multiset(old(lst[..]))
    ensures n < 0 ==> r == Err(IndexError)
    ensures n >= 0 ==> r == Ok(LastReversed(lst[..], Min(n, lst.Length)))
  {
    SortInPlace(lst);
    var reversedLst: seq<Pair> := [];
    var m := n;
    if m > lst.Length {
      m := lst.Length;
    }
    var count := -1;
    while count != -m - 1
      invariant -lst.Length - 1 <= count <= -1
      invariant m >= 0 ==> -m - 1 <= count
      invariant reversedLst == LastReversed(lst[..], -count - 1)
      decreases count + lst.Length + 1
    {
      // lst[count] with a negative count: valid down to -len(lst)
      if count < -lst.Length {
        return Err(IndexError);
      }
      reversedLst := reversedLst + [lst[lst.Length + count]];
      count := count - 1;
    }
    r := Ok(reversedLst);
  }

  /** Every entry `reverse_list_sort` returns is drawn from the list, as a
      sub-multiset: the entries returned and the ones left behind make up the
      list. */
  lemma {:induction false} LastReversedSplits(s: seq<Pair>, k: nat)
    requires k <= |s|
    ensures multiset(LastReversed(s, k)) + multiset(s[..|s| - k]) == multiset(s)
  {
    if k > 0 {
      var s' := s[..|s| - 1];
      LastReversedSplits(s', k - 1);
      assert LastReversed(s, k) == [s[|s| - 1]] + LastReversed(s', k - 1);
      assert s'[..|s'| - (k - 1)] == s[..|s| - k];
      assert s == s' + [s[|s| - 1]];
    } else {
      assert LastReversed(s, k) == [] && s[..|s|] == s;
    }
  }

  /** What `reverse_list_sort` promises of any list, repeats included: read
      back from an ascending arrangement, the `k` entries come out greatest
      first, and nothing left behind exceeds any of them. */
  lemma LastReversedIsTop(s: seq<Pair>, k: nat)
    requires Ascending(s) && k <= |s|
    ensures forall i, j :: 0 <= i < j < k ==> PairLe(LastReversed(s, k)[j], LastReversed(s, k)[i])
    ensures forall x, i :: x in s[..|s| - k] && 0 <= i < k ==> PairLe(x, LastReversed(s, k)[i])
  {
  }

  /** Equal scores come out in reverse alphabetical order of title: the
      later of two tied entries has the alphabetically smaller title. */
  lemma TiesReverseAlphabetical(c: set<Pair>, n: nat, r: seq<Pair>, i: nat, j: nat)
    requires IsTopN(c, n, r) && i < j < |r| && r[i].score == r[j].score
    ensures StrLess(r[j].title, r[i].title)
  {
  }

  /** `r` lists the `n` greatest elements of `c`, greatest first (fewer when
      `c` has fewer than `n` elements). */
  ghost predicate IsTopN(c: set<Pair>, n: nat, r: seq<Pair>)
  {
    && |r| == Min(n, |c|)
    && StrictlyDescending(r)
    && (forall i :: 0 <= i < |r| ==> r[i] in c)
    && (forall x, i :: x in c && x !in r && 0 <= i < |r| ==> PairLess(x, r[i]))
  }

  lemma RepeatCountsTwice(s: seq<Pair>, i: nat, j: nat)
    requires i < j < |s| && s[i] == s[j]
    ensures multiset(s)[s[i]] >= 2
  {
    assert s == s[..j] + s[j..];
    assert s[i] in multiset(s[..j]) && s[j] in multiset(s[j..]);
  }

  /** A sequence whose multiset is a set repeats no element. */
  lemma NoRepeats(s: seq<Pair>, c: set<Pair>, i: nat, j: nat)
    requires multiset(s) == multiset(c) && i < j < |s|
    ensures s[i] != s[j]
  {
    if s[i] == s[j] {
      RepeatCountsTwice(s, i, j);
      assert false;
    }
  }

  /** Reading an ascending arrangement of the set `c` backwards, as
      `reverse_list_sort` does, yields the top `n` of `c`. */
  lemma SortedSuffixIsTop(s: seq<Pair>, c: set<Pair>, n: nat)
    requires Ascending(s) && multiset(s) == multiset(c)
    ensures |s| == |c|
    ensures IsTopN(c, n, LastReversed(s, Min(n, |s|)))
  {
    assert |multiset(s)| == |s|;
    var k := Min(n, |s|);
    var r := LastReversed(s, k);
    forall a, b | 0 <= a < b < |s|
      ensures PairLess(s[a], s[b])
    {
      NoRepeats(s, c, a, b);
      PairLeDistinct(s[a], s[b]);
    }
    assert StrictlyDescending(r) by {
      forall i, j | 0 <= i < j < |r|
        ensures PairLess(r[j], r[i])
      {
        assert r[j] == s[|s| - 1 - j] && r[i] == s[|s| - 1 - i];
      }
    }
    forall i | 0 <= i < |r|
      ensures r[i] in c
    {
      assert r[i] == s[|s| - 1 - i];
      assert r[i] in multiset(s);
    }
    assert forall q :: |s| - k <= q < |s| ==> s[q] == r[|s| - 1 - q];
    forall x, i | x in c && x !in r && 0 <= i < |r|
      ensures PairLess(x, r[i])
    {
      assert x in multiset(s);
      var p :| 0 <= p < |s| && s[p] == x;
      assert p < |s| - k;
      assert r[i] == s[|s| - 1 - i];
    }
  }

  /** When the first `i` entries of two top-n lists of `c` agree and the
      next ones differ, the first list's entry is below the second's. */
  lemma TopBelow(c: set<Pair>, n: nat, r1: seq<Pair>, r2: seq<Pair>, i: nat)
    requires IsTopN(c, n, r1) && IsTopN(c, n, r2) && i < |r1|
    requires forall j :: 0 <= j < i ==> r1[j] == r2[j]
    requires r1[i] != r2[i]
    ensures PairLess(r1[i], r2[i])
  {
    var x := r1[i];
    if x in r2 {
      var p :| 0 <= p < |r2| && r2[p] == x;
      if p < i {
        assert r1[p] == x && PairLess(r1[i], r1[p]);
        PairLessIrreflexive(x);
      }
    }
  }

  lemma {:induction false} TopAgreeUpTo(c: set<Pair>, n: nat, r1: seq<Pair>, r2: seq<Pair>, i: nat)
    requires IsTopN(c, n, r1) && IsTopN(c, n, r2) && i < |r1|
    ensures forall j :: 0 <= j <= i ==> r1[j] == r2[j]
  {
    if i > 0 {
      TopAgreeUpTo(c, n, r1, r2, i - 1);
    }
    if r1[i] != r2[i] {
      TopBelow(c, n, r1, r2, i);
      TopBelow(c, n, r2, r1, i);
      PairLessAsymmetric(r1[i], r2[i]);
    }
  }

  /** The top n of a set is unique: whatever order produced the candidates,
      the selection comes out the same. */
  lemma TopNUnique(c: set<Pair>, n: nat, r1: seq<Pair>, r2: seq<Pair>)
    requires IsTopN(c, n, r1) && IsTopN(c, n, r2)
    ensures r1 == r2
  {
    if |r1| > 0 {
      TopAgreeUpTo(c, n, r1, r2, |r1| - 1);
    }
  }
}
