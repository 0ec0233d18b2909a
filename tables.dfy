/**
 * Generic helpers over tables held as sequences of rows: the optional value
 * used for nullable foreign keys and failed lookups, filtering, lookup and
 * relations that hold between every earlier and every later row.
 */
module Tables {
  datatype Option<T> = None | Some(value: T)

  function Min(a: int, b: int): int { if a <= b then a else b }

  /** The rows of `s` that `keep` accepts, in their original order (a queryset `filter`). */
  function Filter<T(!new)>(s: seq<T>, keep: T -> bool): (r: seq<T>)
    ensures |r| <= |s|
    ensures forall x :: x in r <==> x in s && keep(x)
  {
    if s == [] then []
    else if keep(s[0]) then [s[0]] + Filter(s[1..], keep)
    else Filter(s[1..], keep)
  }

  /** Every earlier row of `s` stands in relation `rel` to every later one. */
  predicate Pairwise<T>(s: seq<T>, rel: (T, T) -> bool) {
    forall i, j :: 0 <= i < j < |s| ==> rel(s[i], s[j])
  }

  lemma PairwiseTail<T>(s: seq<T>, rel: (T, T) -> bool)
    requires s != [] && Pairwise(s, rel)
    ensures Pairwise(s[1..], rel)
    ensures forall x :: x in s[1..] ==> rel(s[0], x)
  {
    forall i, j | 0 <= i < j < |s| - 1 ensures rel(s[1..][i], s[1..][j]) {
      assert s[1..][i] == s[i + 1] && s[1..][j] == s[j + 1];
    }
    forall x | x in s[1..] ensures rel(s[0], x) {
      var k :| 0 <= k < |s| - 1 && s[1..][k] == x;
      assert s[k + 1] == x;
    }
  }

  /** Filtering keeps every pairwise relation: a filtered ordered table stays ordered, a unique key stays unique. */
  lemma {:induction false} FilterKeepsPairwise<T(!new)>(s: seq<T>, keep: T -> bool, rel: (T, T) -> bool)
    requires Pairwise(s, rel)
    ensures Pairwise(Filter(s, keep), rel)
  {
    if s != [] {
      PairwiseTail(s, rel);
      FilterKeepsPairwise(s[1..], keep, rel);
      var t := Filter(s[1..], keep);
      if keep(s[0]) {
        var r := [s[0]] + t;
        forall i, j | 0 <= i < j < |r| ensures rel(r[i], r[j]) {
          assert r[j] == t[j - 1] && r[j] in s[1..];
          if i > 0 { assert r[i] == t[i - 1]; }
        }
      }
    }
  }

  /** Two rows of a table whose rows are pairwise related are equal or related one way or the other. */
  lemma PairwiseMembers<T>(s: seq<T>, rel: (T, T) -> bool, a: T, b: T)
    requires Pairwise(s, rel) && a in s && b in s
    ensures a == b || rel(a, b) || rel(b, a)
  {
    var i :| 0 <= i < |s| && s[i] == a;
    var j :| 0 <= j < |s| && s[j] == b;
    if i < j { assert rel(s[i], s[j]); } else if j < i { assert rel(s[j], s[i]); }
  }

  /** The first row of `s` that `hit` accepts (a `get` on a unique key). */
  function Find<T(!new)>(s: seq<T>, hit: T -> bool): (r: Option<T>)
    ensures r.Some? ==> r.value in s && hit(r.value)
    ensures r.None? ==> forall x :: x in s ==> !hit(x)
  {
    if s == [] then None
    else if hit(s[0]) then Some(s[0])
    else Find(s[1..], hit)
  }


  lemma {:induction false} FilterKeepsAll<T(!new)>(s: seq<T>, keep: T -> bool)
    requires forall x :: x in s ==> keep(x)
    ensures Filter(s, keep) == s
  {
    if s != [] {
      assert forall x :: x in s[1..] ==> x in s;
      FilterKeepsAll(s[1..], keep);
    }
  }

  /** A slice of a table whose rows are pairwise related is pairwise related too. */
  lemma SliceKeepsPairwise<T>(s: seq<T>, rel: (T, T) -> bool, lo: nat, hi: nat)
    requires lo <= hi <= |s| && Pairwise(s, rel)
    ensures Pairwise(s[lo..hi], rel)
  {
    forall i, j | 0 <= i < j < hi - lo ensures rel(s[lo..hi][i], s[lo..hi][j]) {
      assert s[lo..hi][i] == s[lo + i] && s[lo..hi][j] == s[lo + j];
    }
  }

  /** The position of the first row of `s` that `hit` accepts. */
  function IndexWhere<T>(s: seq<T>, hit: T -> bool): (r: Option<nat>)
    ensures r.Some? ==> r.value < |s| && hit(s[r.value])
    ensures r.Some? ==> forall i :: 0 <= i < r.value ==> !hit(s[i])
    ensures r.None? ==> forall i :: 0 <= i < |s| ==> !hit(s[i])
  {
    if s == [] then None
    else if hit(s[0]) then Some(0)
    else match IndexWhere(s[1..], hit)
      case None => None
      case Some(k) => Some(k + 1)
  }
}
