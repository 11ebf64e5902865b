/**
 * `missingRecords.sort((a, b) => a.index - b.index)`: the new records are
 * put in ascending rank order before they are announced.
 */
module RecordOrder {
  import opened Donations

  predicate SortedByIndex(rs: seq<Record>) {
    forall i, j :: 0 <= i < j < |rs| ==> rs[i].index <= rs[j].index
  }

  function Reverse(rs: seq<Record>): (r: seq<Record>)
    ensures |r| == |rs|
  {
    if rs == [] then [] else [rs[|rs| - 1]] + Reverse(rs[..|rs| - 1])
  }

  lemma {:induction false} ReverseAt(rs: seq<Record>, k: int)
    requires 0 <= k < |rs|
    ensures Reverse(rs)[k] == rs[|rs| - 1 - k]
    decreases |rs|
  {
    if k > 0 {
      ReverseAt(rs[..|rs| - 1], k - 1);
    }
  }

  lemma {:induction false} ReversePermutes(rs: seq<Record>)
    ensures multiset(Reverse(rs)) == multiset(rs)
    decreases |rs|
  {
    if rs != [] {
      ReversePermutes(rs[..|rs| - 1]);
      assert rs == rs[..|rs| - 1] + [rs[|rs| - 1]];
    }
  }

  /** Records listed highest rank first come out lowest rank first, ranks strictly increasing. */
  lemma ReverseOfDecreasingIsSorted(rs: seq<Record>)
    requires StrictlyDecreasing(rs)
    ensures forall i, j :: 0 <= i < j < |rs| ==> Reverse(rs)[i].index < Reverse(rs)[j].index
    ensures SortedByIndex(Reverse(rs))
  {
    forall i, j | 0 <= i < j < |rs|
      ensures Reverse(rs)[i].index < Reverse(rs)[j].index
    {
      ReverseAt(rs, i);
      ReverseAt(rs, j);
    }
  }

  /** The first record of a sorted rearrangement of `t` is `t`'s lowest-ranked, last record. */
  lemma SortedHeadIsLast(s: seq<Record>, t: seq<Record>)
    requires StrictlyDecreasing(t)
    requires SortedByIndex(s)
    requires multiset(s) == multiset(t)
    requires t != []
    ensures s != [] && s[0] == t[|t| - 1]
  {
    var last := t[|t| - 1];
    assert last in multiset(t);
    var m :| 0 <= m < |s| && s[m] == last;
    assert s[0] in multiset(t);
    var k :| 0 <= k < |t| && t[k] == s[0];
    assert s[0].index <= last.index;
  }

  lemma MultisetTail(s: seq<Record>, t: seq<Record>)
    requires s != [] && t != [] && s[0] == t[|t| - 1]
    requires multiset(s) == multiset(t)
    ensures multiset(s[1..]) == multiset(t[..|t| - 1])
  {
    var x := s[0];
    assert s == [x] + s[1..];
    assert t == t[..|t| - 1] + [x];
    calc {
      multiset(s[1..]);
      multiset(s) - multiset{x};
      multiset(t) - multiset{x};
      multiset(t[..|t| - 1]);
    }
  }

  /** Sorting records of distinct ranks has exactly one outcome: for records
      listed highest rank first, that outcome is the reversed list. */
  lemma {:induction false} SortedPermutationIsReverse(s: seq<Record>, t: seq<Record>)
    requires StrictlyDecreasing(t)
    requires SortedByIndex(s)
    requires multiset(s) == multiset(t)
    ensures s == Reverse(t)
    decreases |t|
  {
    assert |s| == |multiset(s)| == |multiset(t)| == |t|;
    if t != [] {
      SortedHeadIsLast(s, t);
      MultisetTail(s, t);
      SortedPermutationIsReverse(s[1..], t[..|t| - 1]);
      assert s == [s[0]] + s[1..];
    }
  }

  /** Exchanges two neighbouring records. */
  method SwapDown(a: array<Record>, j: int)
    requires 0 < j < a.Length
    modifies a
    ensures a[..] == old(a[..])[j - 1 := old(a[j])][j := old(a[j - 1])]
    ensures multiset(a[..]) == old(multiset(a[..]))
  {
    a[j - 1], a[j] := a[j], a[j - 1];
  }

  /** In-place ascending sort by rank (an insertion sort: the route relies on
      the JavaScript engine's sort, whose algorithm is not fixed). */
  method SortByIndex(a: array<Record>)
    modifies a
    ensures SortedByIndex(a[..])
    ensures multiset(a[..]) == old(multiset(a[..]))
  {
    if a.Length == 0 {
      return;
    }
    var i := 1;
    while i < a.Length
      invariant 1 <= i <= a.Length
      invariant SortedByIndex(a[..i])
      invariant multiset(a[..]) == old(multiset(a[..]))
    {
      var j := i;
      while j > 0 && a[j - 1].index > a[j].index
        invariant 0 <= j <= i
        invariant forall p, q :: 0 <= p < q <= i && q != j ==> a[p].index <= a[q].index
        invariant multiset(a[..]) == old(multiset(a[..]))
      {
        SwapDown(a, j);
        j := j - 1;
      }
      i := i + 1;
    }
  }
}
