/** The ordered set of row numbers that the lock step collects (a
    `BTreeSet<i8>`): a strictly increasing sequence, iterated in ascending order. */
module SortedSets {

  predicate Increasing(s: seq<int>) {
    forall i, j :: 0 <= i < j < |s| ==> s[i] < s[j]
  }

  /** `BTreeSet::insert`: adds `v` unless it is already present, keeping the
      elements in ascending order. */
  function Insert(s: seq<int>, v: int): (r: seq<int>)
    requires Increasing(s)
    ensures Increasing(r)
    ensures forall x :: x in r <==> x in s || x == v
    ensures |r| == if v in s then |s| else |s| + 1
    decreases |s|
  {
    if s == [] then [v]
    else if v < s[0] then [v] + s
    else if v == s[0] then s
    else
      var t := Insert(s[1..], v);
      assert forall x :: x in s <==> x == s[0] || x in s[1..];
      assert forall j :: 0 <= j < |t| ==> s[0] < t[j] by {
        forall j | 0 <= j < |t| ensures s[0] < t[j] {
          assert t[j] in t;
        }
      }
      [s[0]] + t
  }
}
