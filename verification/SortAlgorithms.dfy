/** The standard algorithms the index construction relies on, over vectors of
    PhoneList entries: a stable sort, a binary search and the removal of
    neighbouring duplicates. */
module SortAlgorithms {
  import opened PhoneRows

  /** Order by number, then by row. */
  predicate Less(a: PhoneList, b: PhoneList) {
    if a.phone == b.phone then a.next < b.next else a.phone < b.phone
  }

  ghost predicate Sorted(s: seq<PhoneList>) {
    forall i, j :: 0 <= i < j < |s| ==> Less(s[i], s[j])
  }

  ghost predicate WeaklySorted(s: seq<PhoneList>) {
    forall i, j :: 0 <= i < j < |s| ==> !Less(s[j], s[i])
  }

  ghost predicate PhonesAscend(s: seq<PhoneList>) {
    forall i, j :: 0 <= i < j < |s| ==> s[i].phone < s[j].phone
  }

  // ----------------------------------------------------------- stable sort

  function Merge(a: seq<PhoneList>, b: seq<PhoneList>): seq<PhoneList> {
    if a == [] then b
    else if b == [] then a
    else if Less(b[|b| - 1], a[|a| - 1]) then Merge(a[..|a| - 1], b) + [a[|a| - 1]]
    else Merge(a, b[..|b| - 1]) + [b[|b| - 1]]
  }

  lemma SplitLast(s: seq<PhoneList>)
    requires s != []
    ensures multiset(s) == multiset(s[..|s| - 1]) + multiset{s[|s| - 1]}
  {
    assert s == s[..|s| - 1] + [s[|s| - 1]];
  }

  lemma {:induction false} MergeKeeps(a: seq<PhoneList>, b: seq<PhoneList>)
    ensures multiset(Merge(a, b)) == multiset(a) + multiset(b)
  {
    if a != [] && b != [] {
      if Less(b[|b| - 1], a[|a| - 1]) {
        MergeKeeps(a[..|a| - 1], b);
        SplitLast(a);
      } else {
        MergeKeeps(a, b[..|b| - 1]);
        SplitLast(b);
      }
    }
  }

  lemma MergeMember(a: seq<PhoneList>, b: seq<PhoneList>, x: PhoneList)
    requires x in Merge(a, b)
    ensures x in a || x in b
  {
    MergeKeeps(a, b);
    assert x in multiset(Merge(a, b));
  }

  lemma {:induction false} MergeSorts(a: seq<PhoneList>, b: seq<PhoneList>)
    requires WeaklySorted(a) && WeaklySorted(b)
    ensures WeaklySorted(Merge(a, b))
  {
    if a != [] && b != [] {
      var takeA := Less(b[|b| - 1], a[|a| - 1]);
      var a', b' := if takeA then a[..|a| - 1] else a, if takeA then b else b[..|b| - 1];
      var last := if takeA then a[|a| - 1] else b[|b| - 1];
      MergeSorts(a', b');
      var m := Merge(a', b');
      forall i | 0 <= i < |m| ensures !Less(last, m[i]) {
        MergeMember(a', b', m[i]);
      }
    }
  }

  method StableSort(v: seq<PhoneList>) returns (s: seq<PhoneList>)
    ensures WeaklySorted(s)
    ensures multiset(s) == multiset(v)
    decreases |v|
  {
    if |v| <= 1 {
      return v;
    }
    var mid := |v| / 2;
    var left := StableSort(v[..mid]);
    var right := StableSort(v[mid..]);
    MergeKeeps(left, right);
    MergeSorts(left, right);
    assert v == v[..mid] + v[mid..];
    s := Merge(left, right);
  }

  lemma SameFirst(a: seq<PhoneList>, b: seq<PhoneList>)
    requires Sorted(a) && WeaklySorted(b) && multiset(a) == multiset(b) && a != [] && b != []
    ensures a[0] == b[0]
  {
    assert a[0] in multiset(b) && b[0] in multiset(a);
    var i :| 0 <= i < |a| && a[i] == b[0];
    var j :| 0 <= j < |b| && b[j] == a[0];
  }

  lemma SplitFirst(s: seq<PhoneList>)
    requires s != []
    ensures multiset(s[1..]) == multiset(s) - multiset{s[0]}
  {
    assert s == [s[0]] + s[1..];
  }

  /** A multiset of entries has at most one sorted arrangement. */
  lemma {:induction false} SortedIsUnique(a: seq<PhoneList>, b: seq<PhoneList>)
    requires Sorted(a) && WeaklySorted(b) && multiset(a) == multiset(b)
    ensures a == b
  {
    assert |a| == |multiset(a)| == |multiset(b)| == |b|;
    if a != [] {
      SameFirst(a, b);
      SplitFirst(a);
      SplitFirst(b);
      SortedIsUnique(a[1..], b[1..]);
      assert a == [a[0]] + a[1..] && b == [b[0]] + b[1..];
    }
  }

  // ---------------------------------------------------------- lower bound

  /** First position at or behind `start` whose number is not below `key`. */
  method LowerBound(s: seq<PhoneList>, start: nat, key: U34) returns (pos: nat)
    requires start <= |s| && PhonesAscend(s)
    ensures start <= pos <= |s|
    ensures forall i :: start <= i < pos ==> s[i].phone < key
    ensures forall i :: pos <= i < |s| ==> key <= s[i].phone
  {
    var lo, hi := start, |s|;
    while lo < hi
      invariant start <= lo <= hi <= |s|
      invariant forall i :: start <= i < lo ==> s[i].phone < key
      invariant forall i :: hi <= i < |s| ==> key <= s[i].phone
    {
      var mid := lo + (hi - lo) / 2;
      if s[mid].phone < key {
        lo := mid + 1;
      } else {
        hi := mid;
      }
    }
    pos := lo;
  }

  // --------------------------------------------------------------- unique

  /** Keep the first entry of every run of equal numbers. */
  function Unique(s: seq<PhoneList>): seq<PhoneList> {
    if |s| <= 1 then s
    else
      var u := Unique(s[..|s| - 1]);
      if s[|s| - 1].phone == s[|s| - 2].phone then u else u + [s[|s| - 1]]
  }

  /** Entry p starts a run of equal numbers. */
  ghost predicate RunStart(s: seq<PhoneList>, p: nat) {
    p < |s| && (p == 0 || s[p - 1].phone != s[p].phone)
  }

  ghost predicate HeadsOfRuns(heads: seq<PhoneList>, s: seq<PhoneList>) {
    && PhonesAscend(heads)
    && (forall k :: 0 <= k < |heads| ==> StartsRun(s, heads[k]))
    && (forall p :: 0 <= p < |s| ==> HasPhone(heads, s[p].phone))
  }

  ghost predicate StartsRun(s: seq<PhoneList>, e: PhoneList) {
    exists p: nat :: RunStart(s, p) && s[p] == e
  }

  ghost predicate HasPhone(s: seq<PhoneList>, phone: U34) {
    exists k :: 0 <= k < |s| && s[k].phone == phone
  }

  lemma {:induction false} UniqueEndsWithLast(s: seq<PhoneList>)
    requires s != []
    ensures Unique(s) != [] && Unique(s)[|Unique(s)| - 1].phone == s[|s| - 1].phone
  {
    if |s| > 1 {
      UniqueEndsWithLast(s[..|s| - 1]);
    }
  }

  lemma {:induction false} UniqueAscends(s: seq<PhoneList>)
    requires Sorted(s)
    ensures PhonesAscend(Unique(s))
  {
    if |s| > 1 {
      var n := |s| - 1;
      var u := Unique(s[..n]);
      UniqueAscends(s[..n]);
      UniqueEndsWithLast(s[..n]);
      assert s[..n][n - 1] == s[n - 1] && Less(s[n - 1], s[n]);
      forall i | 0 <= i < |u| ensures u[i].phone <= s[n - 1].phone {
        assert u[i].phone <= u[|u| - 1].phone;
      }
    }
  }

  lemma {:induction false} UniqueIsRunStarts(s: seq<PhoneList>, k: nat) returns (p: nat)
    requires k < |Unique(s)|
    ensures RunStart(s, p) && s[p] == Unique(s)[k]
  {
    if |s| <= 1 {
      p := k;
    } else if k < |Unique(s[..|s| - 1])| {
      p := UniqueIsRunStarts(s[..|s| - 1], k);
    } else {
      p := |s| - 1;
    }
  }

  lemma {:induction false} UniqueCovers(s: seq<PhoneList>, p: nat) returns (k: nat)
    requires p < |s|
    ensures k < |Unique(s)| && Unique(s)[k].phone == s[p].phone
  {
    if p == |s| - 1 {
      UniqueEndsWithLast(s);
      k := |Unique(s)| - 1;
    } else {
      k := UniqueCovers(s[..|s| - 1], p);
    }
  }

  lemma UniqueKeepsHeads(s: seq<PhoneList>)
    requires Sorted(s)
    ensures HeadsOfRuns(Unique(s), s)
  {
    UniqueAscends(s);
    forall k | 0 <= k < |Unique(s)| ensures StartsRun(s, Unique(s)[k]) {
      var p := UniqueIsRunStarts(s, k);
    }
    forall p | 0 <= p < |s| ensures HasPhone(Unique(s), s[p].phone) {
      var k := UniqueCovers(s, p);
    }
  }
}
