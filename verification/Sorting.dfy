/** The exchange sort the snapshot and both dumps run over arrays of table indices. */
module Sorting {

  /** `before` is a strict order whose incomparable elements form one class. */
  ghost predicate StrictOrder<T(!new)>(before: (T, T) -> bool) {
    && (forall a, b :: before(a, b) ==> !before(b, a))
    && (forall a, b, c :: !before(b, a) && !before(c, b) ==> !before(c, a))
  }

  ghost predicate Sorted<T(!new)>(xs: seq<T>, before: (T, T) -> bool) {
    forall i, j :: 0 <= i < j < |xs| ==> !before(xs[j], xs[i])
  }

  ghost predicate Ascending<T(!new)>(xs: seq<T>, before: (T, T) -> bool) {
    forall i, j :: 0 <= i < j < |xs| ==> before(xs[i], xs[j])
  }

  function Select<T>(table: seq<T>, ks: seq<nat>): (r: seq<T>)
    requires forall i :: 0 <= i < |ks| ==> ks[i] < |table|
    ensures |r| == |ks|
  {
    seq(|ks|, i requires 0 <= i < |ks| => table[ks[i]])
  }

  method ExchangeSort<T(!new)>(indices: array<nat>, count: nat, table: seq<T>, before: (T, T) -> bool)
    requires count <= indices.Length && StrictOrder(before)
    requires forall i :: 0 <= i < count ==> indices[i] < |table|
    modifies indices
    ensures multiset(indices[..count]) == multiset(old(indices[..count]))
    ensures forall i :: 0 <= i < count ==> indices[i] < |table|
    ensures Sorted(Select(table, indices[..count]), before)
    ensures indices[count..] == old(indices[count..])
  {
    for i := 0 to count
      invariant multiset(indices[..count]) == multiset(old(indices[..count]))
      invariant indices[count..] == old(indices[count..])
      invariant forall k :: 0 <= k < count ==> indices[k] < |table|
      invariant SortedUpTo(indices[..count], i, table, before)
    {
      Round(indices, count, i, table, before);
    }
  }

  /** Behind the first i indices no entry precedes one of theirs. */
  ghost predicate SortedUpTo<T(!new)>(indices: seq<nat>, i: nat, table: seq<T>, before: (T, T) -> bool)
    requires forall k :: 0 <= k < |indices| ==> indices[k] < |table|
  {
    forall k, l :: 0 <= k < i && k < l < |indices| ==> !before(table[indices[l]], table[indices[k]])
  }

  /** The inner loop: brings the least of the entries from i on to i. */
  method Round<T(!new)>(indices: array<nat>, count: nat, i: nat, table: seq<T>, before: (T, T) -> bool)
    requires i < count <= indices.Length && StrictOrder(before)
    requires forall k :: 0 <= k < count ==> indices[k] < |table|
    requires SortedUpTo(indices[..count], i, table, before)
    modifies indices
    ensures multiset(indices[..count]) == multiset(old(indices[..count]))
    ensures indices[count..] == old(indices[count..])
    ensures forall k :: 0 <= k < count ==> indices[k] < |table|
    ensures SortedUpTo(indices[..count], i + 1, table, before)
  {
    for j := i + 1 to count
      invariant multiset(indices[..count]) == multiset(old(indices[..count]))
      invariant indices[count..] == old(indices[count..])
      invariant forall k :: 0 <= k < count ==> indices[k] < |table|
      invariant forall k, l :: 0 <= k < i && k < l < count ==> !before(table[indices[l]], table[indices[k]])
      invariant forall l :: i < l < j ==> !before(table[indices[l]], table[indices[i]])
    {
      if before(table[indices[j]], table[indices[i]]) {
        Swap(indices, count, i, j);
      }
    }
  }

  method Swap(indices: array<nat>, ghost count: nat, i: nat, j: nat)
    requires i < j < count <= indices.Length
    modifies indices
    ensures indices[i] == old(indices[j]) && indices[j] == old(indices[i])
    ensures forall k :: 0 <= k < indices.Length && k != i && k != j ==> indices[k] == old(indices[k])
    ensures multiset(indices[..count]) == multiset(old(indices[..count]))
    ensures indices[count..] == old(indices[count..])
  {
    var tmp := indices[i];
    indices[i] := indices[j];
    indices[j] := tmp;
    assert indices[..count] == old(indices[..count])[i := indices[i]][j := indices[j]];
  }

  lemma SamePlaces(ks: seq<nat>, us: seq<nat>, k: nat)
    requires multiset(ks) == multiset(us)
    ensures k in ks <==> k in us
  {
    assert k in multiset(ks) <==> k in multiset(us);
  }

  lemma NoRepeats(ks: seq<nat>, us: seq<nat>, i: nat, j: nat)
    requires multiset(ks) == multiset(us) && i < j < |ks|
    requires forall a, b :: 0 <= a < b < |us| ==> us[a] < us[b]
    ensures ks[i] != ks[j]
  {
    AscendingOnce(us, ks[i]);
    assert ks == ks[..j] + [ks[j]] + ks[j + 1..];
    assert ks[i] in ks[..j];
    assert multiset(ks)[ks[i]] >= multiset(ks[..j])[ks[i]] + multiset([ks[j]])[ks[i]];
  }

  lemma {:induction false} AscendingOnce(us: seq<nat>, k: nat)
    requires forall i, j :: 0 <= i < j < |us| ==> us[i] < us[j]
    ensures multiset(us)[k] <= 1
  {
    if us != [] {
      var m := |us| - 1;
      assert us == us[..m] + [us[m]];
      AscendingOnce(us[..m], k);
      assert us[m] !in us[..m];
    }
  }

  predicate Names<T>(table: seq<T>, ks: seq<nat>) {
    forall i :: 0 <= i < |ks| ==> ks[i] < |table|
  }

  lemma AppendSorted<T(!new)>(table: seq<T>, us: seq<nat>, k: nat, before: (T, T) -> bool)
    requires StrictOrder(before) && Names(table, us) && k < |table| && Sorted(Select(table, us), before)
    requires forall i :: 0 <= i < |us| ==> !before(table[k], table[us[i]])
    ensures Names(table, us + [k]) && Sorted(Select(table, us + [k]), before)
  {
    var xs, ys := Select(table, us), Select(table, us + [k]);
    assert ys == xs + [table[k]];
  }

  /** Insertion from the end. */
  lemma {:induction false} InsertSorted<T(!new)>(table: seq<T>, us: seq<nat>, k: nat, before: (T, T) -> bool)
    returns (vs: seq<nat>)
    requires StrictOrder(before) && Names(table, us) && k < |table| && Sorted(Select(table, us), before)
    ensures multiset(vs) == multiset(us + [k]) && Names(table, vs) && Sorted(Select(table, vs), before)
    decreases |us|
  {
    var xs := Select(table, us);
    if us == [] || !before(table[k], table[us[|us| - 1]]) {
      vs := us + [k];
      forall i | 0 <= i < |us|
        ensures !before(table[k], table[us[i]])
      {
        assert i < |us| - 1 ==> !before(xs[|us| - 1], xs[i]);
      }
      AppendSorted(table, us, k, before);
    } else {
      var m := |us| - 1;
      assert Select(table, us[..m]) == xs[..m];
      var ws := InsertSorted(table, us[..m], k, before);
      forall i | 0 <= i < |ws|
        ensures !before(table[us[m]], table[ws[i]])
      {
        assert ws[i] in multiset(us[..m] + [k]);
        if ws[i] != k {
          var j :| 0 <= j < m && us[j] == ws[i];
          assert !before(xs[m], xs[j]);
        }
      }
      AppendSorted(table, ws, us[m], before);
      vs := ws + [us[m]];
      assert us == us[..m] + [us[m]];
    }
  }

  /** Any selection can be sorted. */
  lemma {:induction false} SortedExists<T(!new)>(table: seq<T>, ks: seq<nat>, before: (T, T) -> bool)
    returns (us: seq<nat>)
    requires StrictOrder(before) && Names(table, ks)
    ensures multiset(us) == multiset(ks) && Names(table, us) && Sorted(Select(table, us), before)
  {
    if ks == [] {
      us := [];
    } else {
      var m := |ks| - 1;
      var vs := SortedExists(table, ks[..m], before);
      us := InsertSorted(table, vs, ks[m], before);
      assert ks == ks[..m] + [ks[m]];
    }
  }

  lemma EmptyTogether<T>(xs: seq<T>, ys: seq<T>)
    requires forall x :: x in xs <==> x in ys
    ensures xs == [] <==> ys == []
  {
    if xs != [] {
      assert xs[0] in ys;
    }
    if ys != [] {
      assert ys[0] in xs;
    }
  }

  lemma HeadIsLeast<T(!new)>(xs: seq<T>, before: (T, T) -> bool, x: T)
    requires Ascending(xs, before) && x in xs
    ensures x == xs[0] || before(xs[0], x)
  {
    var i :| 0 <= i < |xs| && xs[i] == x;
  }

  /** A strictly ascending listing of a set of elements is unique. */
  lemma {:induction false} AscendingUnique<T(!new)>(xs: seq<T>, ys: seq<T>, before: (T, T) -> bool)
    requires StrictOrder(before) && Ascending(xs, before) && Ascending(ys, before)
    requires forall x :: x in xs <==> x in ys
    ensures xs == ys
    decreases |xs|
  {
    EmptyTogether(xs, ys);
    if xs != [] {
      assert ys[0] in xs && xs[0] in ys;
      HeadIsLeast(xs, before, ys[0]);
      HeadIsLeast(ys, before, xs[0]);
      forall x
        ensures x in xs[1..] <==> x in ys[1..]
      {
        TailMembers(xs, before, x);
        TailMembers(ys, before, x);
      }
      AscendingUnique(xs[1..], ys[1..], before);
      assert xs == [xs[0]] + xs[1..] && ys == [ys[0]] + ys[1..];
    }
  }

  lemma TailMembers<T(!new)>(xs: seq<T>, before: (T, T) -> bool, x: T)
    requires StrictOrder(before) && Ascending(xs, before) && xs != []
    ensures x in xs[1..] <==> x in xs && x != xs[0]
  {
    assert xs == [xs[0]] + xs[1..];
    assert forall k :: 0 <= k < |xs[1..]| ==> xs[1..][k] == xs[k + 1];
  }

  /** A sorted listing of distinct elements of which any two are ordered is strictly ascending. */
  lemma SortedDistinctAscends<T(!new)>(xs: seq<T>, before: (T, T) -> bool)
    requires Sorted(xs, before)
    requires forall i, j :: 0 <= i < j < |xs| ==> before(xs[i], xs[j]) || before(xs[j], xs[i])
    ensures Ascending(xs, before)
  {
  }
}
