/**
 * Ordering of combo buttons before dispatch: the identity index list is
 * insertion-sorted in place so that combos with more member keys come first,
 * equal counts keeping their configuration order.
 */
module ComboSort {

  /** Every index in `s` names one of `n` combos. */
  predicate InRange(s: seq<nat>, n: nat)
  {
    forall k :: 0 <= k < |s| ==> s[k] < n
  }

  /** `0, 1, ..., n - 1`: the index list before sorting. */
  function Iota(n: nat): (r: seq<nat>)
    ensures |r| == n
    ensures forall k :: 0 <= k < n ==> r[k] == k
  {
    if n == 0 then [] else Iota(n - 1) + [n - 1]
  }

  /**
   * Inserts `x` behind the sorted list `t` and moves it towards the front
   * past every index whose key count is strictly smaller, as one pass of the
   * insertion sort does.
   */
  function Insert(t: seq<nat>, x: nat, counts: seq<nat>): (r: seq<nat>)
    requires x < |counts| && InRange(t, |counts|)
    ensures |r| == |t| + 1 && InRange(r, |counts|)
    decreases |t|
  {
    if t == [] then [x]
    else if counts[t[|t| - 1]] < counts[x] then
      assert t == t[..|t| - 1] + [t[|t| - 1]];
      Insert(t[..|t| - 1], x, counts) + [t[|t| - 1]]
    else t + [x]
  }

  /** The insertion sort of `s` by descending `counts`, as a function. */
  function SortDesc(s: seq<nat>, counts: seq<nat>): (r: seq<nat>)
    requires InRange(s, |counts|)
    ensures |r| == |s| && InRange(r, |counts|)
    decreases |s|
  {
    if s == [] then []
    else
      assert s == s[..|s| - 1] + [s[|s| - 1]];
      Insert(SortDesc(s[..|s| - 1], counts), s[|s| - 1], counts)
  }

  /**
   * `sort_combo_buttons_by_key_count`: sorts `indices` in place, by
   * descending key count of the combo each one names.
   */
  method SortByKeyCount(indices: array<nat>, counts: seq<nat>)
    requires InRange(indices[..], |counts|)
    modifies indices
    ensures indices[..] == SortDesc(old(indices[..]), counts)
  {
    ghost var s := indices[..];
    if indices.Length == 0 {
      return;
    }
    assert s[..1] == [] + [s[0]];
    var i := 1;
    while i < indices.Length
      invariant 1 <= i <= indices.Length
      invariant indices[..i] == SortDesc(s[..i], counts)
      invariant indices[i..] == s[i..]
      invariant InRange(indices[..], |counts|)
    {
      ghost var pre := indices[..];
      assert pre[i] == s[i] && pre[i + 1..] == s[i + 1..] by {
        assert pre[i..] == s[i..];
      }
      InsertPass(indices, i, counts);
      SortDescStep(s, i, counts);
      i := i + 1;
    }
    assert s[..i] == s;
  }

  /** Sorting one more element of `s` inserts it into the sorted prefix. */
  lemma SortDescStep(s: seq<nat>, i: nat, counts: seq<nat>)
    requires i < |s| && InRange(s, |counts|)
    ensures InRange(s[..i], |counts|) && InRange(s[..i + 1], |counts|)
    ensures SortDesc(s[..i + 1], counts) == Insert(SortDesc(s[..i], counts), s[i], counts)
  {
    var t := s[..i + 1];
    assert t[..|t| - 1] == s[..i] && t[|t| - 1] == s[i];
    assert SortDesc(t, counts) == Insert(SortDesc(t[..|t| - 1], counts), t[|t| - 1], counts);
  }

  /**
   * One pass of the outer loop: with `indices[..i]` already sorted, shifts
   * every trailing index of smaller key count one place right and drops
   * `indices[i]` into the gap.
   */
  method InsertPass(indices: array<nat>, i: nat, counts: seq<nat>)
    requires i < indices.Length
    requires InRange(indices[..], |counts|)
    modifies indices
    ensures InRange(indices[..], |counts|)
    ensures indices[..i + 1] == Insert(old(indices[..i]), old(indices[i]), counts)
    ensures indices[i + 1..] == old(indices[i + 1..])
  {
    ghost var a := indices[..];
    var temp := indices[i];
    var j: int := i - 1;
    while j >= 0 && counts[indices[j]] < counts[temp]
      invariant -1 <= j < i
      invariant forall k :: 0 <= k <= j ==> indices[k] == a[k]
      invariant forall k :: j + 2 <= k <= i ==> indices[k] == a[k - 1]
      invariant forall k :: i < k < indices.Length ==> indices[k] == a[k]
      invariant forall k :: j + 1 <= k < i ==> counts[a[k]] < counts[temp]
    {
      indices[j + 1] := indices[j];
      j := j - 1;
    }
    indices[j + 1] := temp;
    DropIntoGap(indices[..], a, i, j + 1, counts);
  }

  /**
   * The insertion point: when `x` outranks every index from `g` on and
   * `g` is the front or follows an index with at least `x`'s key count,
   * `x` lands at position `g`.
   */
  lemma {:induction false} InsertAt(t: seq<nat>, x: nat, g: nat, counts: seq<nat>)
    requires x < |counts| && InRange(t, |counts|) && g <= |t|
    requires g == 0 || counts[t[g - 1]] >= counts[x]
    requires forall k :: g <= k < |t| ==> counts[t[k]] < counts[x]
    ensures Insert(t, x, counts) == t[..g] + [x] + t[g..]
    decreases |t|
  {
    if g < |t| {
      var t' := t[..|t| - 1];
      assert t'[..g] == t[..g];
      InsertAt(t', x, g, counts);
      assert t[g..] == t'[g..] + [t[|t| - 1]];
    }
  }

  /**
   * After the shift, `b` is `a` with `a[g..i]` moved one place right and
   * the held index `a[i]` written at `g`: the prefix up to `i` is `a[..i]`
   * with `a[i]` inserted at `g`, which is where insertion puts it when
   * everything in `a[g..i]` has fewer keys and `a[g - 1]` does not, and the
   * rest is untouched.
   */
  lemma {:induction false} DropIntoGap(b: seq<nat>, a: seq<nat>, i: nat, g: nat, counts: seq<nat>)
    requires g <= i < |a| == |b| && InRange(a, |counts|)
    requires forall k :: 0 <= k < g ==> b[k] == a[k]
    requires b[g] == a[i]
    requires forall k :: g < k <= i ==> b[k] == a[k - 1]
    requires forall k :: i < k < |b| ==> b[k] == a[k]
    requires g == 0 || counts[a[g - 1]] >= counts[a[i]]
    requires forall k :: g <= k < i ==> counts[a[k]] < counts[a[i]]
    ensures InRange(b, |counts|)
    ensures b[..i + 1] == Insert(a[..i], a[i], counts)
    ensures b[i + 1..] == a[i + 1..]
  {
    InsertAt(a[..i], a[i], g, counts);
    var r := a[..i][..g] + [a[i]] + a[..i][g..];
    forall k | 0 <= k < i + 1
      ensures b[k] == r[k]
    {
      if k > g {
        assert r[k] == a[..i][g..][k - g - 1];
      } else if k < g {
        assert r[k] == a[..i][..g][k];
      }
    }
  }

  /** Insertion adds exactly the inserted index. */
  lemma {:induction false} InsertPermutes(t: seq<nat>, x: nat, counts: seq<nat>)
    requires x < |counts| && InRange(t, |counts|)
    ensures multiset(Insert(t, x, counts)) == multiset(t) + multiset{x}
    decreases |t|
  {
    if t != [] && counts[t[|t| - 1]] < counts[x] {
      InsertPermutes(t[..|t| - 1], x, counts);
      assert t == t[..|t| - 1] + [t[|t| - 1]];
    }
  }

  /** Sorting permutes: no combo index is lost or duplicated. */
  lemma {:induction false} SortPermutes(s: seq<nat>, counts: seq<nat>)
    requires InRange(s, |counts|)
    ensures multiset(SortDesc(s, counts)) == multiset(s)
    decreases |s|
  {
    if s != [] {
      SortPermutes(s[..|s| - 1], counts);
      InsertPermutes(SortDesc(s[..|s| - 1], counts), s[|s| - 1], counts);
      assert s == s[..|s| - 1] + [s[|s| - 1]];
    }
  }

  /**
   * The dispatch order: combo `a` goes before combo `b` when it has more
   * keys, or as many keys and a lower index.
   */
  predicate Before(counts: seq<nat>, a: nat, b: nat)
    requires a < |counts| && b < |counts|
  {
    counts[a] > counts[b] || (counts[a] == counts[b] && a < b)
  }

  predicate OrderedBy(t: seq<nat>, counts: seq<nat>)
    requires InRange(t, |counts|)
  {
    forall p, q :: 0 <= p < q < |t| ==> Before(counts, t[p], t[q])
  }

  /** Appending an index that every present one goes before keeps dispatch order. */
  lemma OrderedSnoc(r: seq<nat>, v: nat, counts: seq<nat>)
    requires v < |counts| && InRange(r, |counts|) && OrderedBy(r, counts)
    requires forall p :: 0 <= p < |r| ==> Before(counts, r[p], v)
    ensures InRange(r + [v], |counts|) && OrderedBy(r + [v], counts)
  {
    var r' := r + [v];
    forall p, q | 0 <= p < q < |r'|
      ensures Before(counts, r'[p], r'[q])
    {
      if q < |r| {
        assert r'[p] == r[p] && r'[q] == r[q];
      }
    }
  }

  /** Inserting an index above all present ones keeps a list in dispatch order. */
  lemma {:induction false} InsertOrdered(t: seq<nat>, x: nat, counts: seq<nat>)
    requires x < |counts| && InRange(t, |counts|)
    requires OrderedBy(t, counts)
    requires forall y :: y in t ==> y < x
    ensures OrderedBy(Insert(t, x, counts), counts)
    decreases |t|
  {
    if t == [] {
    } else if counts[t[|t| - 1]] < counts[x] {
      var t' := t[..|t| - 1];
      var last := t[|t| - 1];
      assert forall y :: y in t' ==> y in t;
      InsertOrdered(t', x, counts);
      var r := Insert(t', x, counts);
      assert Insert(t, x, counts) == r + [last];
      InsertPermutes(t', x, counts);
      forall p | 0 <= p < |r|
        ensures Before(counts, r[p], last)
      {
        var y := r[p];
        assert y in multiset(r);
        if y != x {
          assert y in t';
          var q :| 0 <= q < |t'| && t'[q] == y;
          assert Before(counts, t[q], t[|t| - 1]);
        }
      }
      OrderedSnoc(r, last, counts);
    } else {
      var last := t[|t| - 1];
      forall p | 0 <= p < |t|
        ensures Before(counts, t[p], x)
      {
        if p < |t| - 1 {
          assert Before(counts, t[p], last);
        }
        assert t[p] in t;
      }
      OrderedSnoc(t, x, counts);
    }
  }

  /**
   * Sorting an increasing index list yields dispatch order: descending key
   * counts, and equal counts in their original (index) order.
   */
  lemma {:induction false} SortIncreasingOrdered(s: seq<nat>, counts: seq<nat>)
    requires InRange(s, |counts|)
    requires forall p, q :: 0 <= p < q < |s| ==> s[p] < s[q]
    ensures OrderedBy(SortDesc(s, counts), counts)
    decreases |s|
  {
    if s != [] {
      var s' := s[..|s| - 1];
      var x := s[|s| - 1];
      assert forall y :: y in s' ==> y in s;
      SortIncreasingOrdered(s', counts);
      var t := SortDesc(s', counts);
      SortPermutes(s', counts);
      forall y | y in t
        ensures y < x
      {
        assert y in multiset(s');
        var p :| 0 <= p < |s'| && s'[p] == y;
      }
      InsertOrdered(t, x, counts);
    }
  }

  /** The dispatch order of `n` combos with key counts `counts`. */
  function DispatchOrder(counts: seq<nat>): (r: seq<nat>)
  {
    assert InRange(Iota(|counts|), |counts|) by {
      forall y | y in Iota(|counts|) ensures y < |counts| {
        var k :| 0 <= k < |counts| && Iota(|counts|)[k] == y;
      }
    }
    SortDesc(Iota(|counts|), counts)
  }

  /**
   * The dispatch order visits every combo exactly once, puts combos with
   * more keys first, and keeps equal-count combos in configuration order.
   */
  lemma {:induction false} DispatchOrderSpec(counts: seq<nat>)
    ensures multiset(DispatchOrder(counts)) == multiset(Iota(|counts|))
    ensures |DispatchOrder(counts)| == |counts|
    ensures InRange(DispatchOrder(counts), |counts|)
    ensures forall p, q :: 0 <= p < q < |counts| ==>
      var r := DispatchOrder(counts);
      counts[r[p]] > counts[r[q]] || (counts[r[p]] == counts[r[q]] && r[p] < r[q])
  {
    var r := DispatchOrder(counts);
    var n := |counts|;
    SortPermutes(Iota(n), counts);
    assert |r| == |multiset(r)| == |multiset(Iota(n))| == n;
    forall y | y in r ensures y < n {
      assert y in multiset(Iota(n));
      var k :| 0 <= k < n && Iota(n)[k] == y;
    }
    SortIncreasingOrdered(Iota(n), counts);
  }
}
