/** The sorted-list helpers the search relies on: Go's sort.SearchInts and
    the helpers findTargetOrLower and lastOf. */
module SortedLists {

  predicate Ascending(s: seq<int>) {
    forall i, j :: 0 <= i < j < |s| ==> s[i] <= s[j]
  }

  predicate StrictlyAscending(s: seq<int>) {
    forall i, j :: 0 <= i < j < |s| ==> s[i] < s[j]
  }

  /** Some element of `s` is strictly below `v`. */
  predicate HasBelow(s: seq<int>, v: int) {
    exists x :: x in s && x < v
  }

  /** Some element of `s` is strictly above `v`. */
  predicate HasAbove(s: seq<int>, v: int) {
    exists x :: x in s && x > v
  }

  /** sort.SearchInts: the index at which `v` would be inserted into the
      ascending `s`, that is the first index whose element is at least `v`
      (|s| when there is none). */
  function SearchInts(s: seq<int>, v: int): (i: nat)
    requires Ascending(s)
    ensures i <= |s|
    ensures forall j :: 0 <= j < i ==> s[j] < v
    ensures forall j :: i <= j < |s| ==> v <= s[j]
  {
    SearchRange(s, v, 0, |s|)
  }

  /** The halving search of sort.Search on the index window [lo, hi):
      everything before `lo` is known to be below `v`, everything from `hi`
      on is known to be at least `v`. */
  function SearchRange(s: seq<int>, v: int, lo: nat, hi: nat): (i: nat)
    requires Ascending(s) && lo <= hi <= |s|
    requires forall j :: 0 <= j < lo ==> s[j] < v
    requires forall j :: hi <= j < |s| ==> v <= s[j]
    ensures lo <= i <= hi
    ensures forall j :: 0 <= j < i ==> s[j] < v
    ensures forall j :: i <= j < |s| ==> v <= s[j]
    decreases hi - lo
  {
    if lo < hi then
      var h := (lo + hi) / 2;
      if s[h] < v then SearchRange(s, v, h + 1, hi) else SearchRange(s, v, lo, h)
    else
      lo
  }

  /** findTargetOrLower: the index of `v` in `s`, or else of the element
      immediately under it; -1 when every element is greater than `v`. */
  function FindTargetOrLower(s: seq<int>, v: int): (r: int)
    requires |s| > 0 && StrictlyAscending(s)
    ensures -1 <= r < |s|
    ensures r == -1 <==> forall j :: 0 <= j < |s| ==> v < s[j]
    ensures r >= 0 ==> s[r] <= v && forall j :: r < j < |s| ==> v < s[j]
    ensures r >= 0 ==> forall x :: x in s && x <= v ==> x <= s[r]
  {
    var i := SearchInts(s, v);
    if i == 0 && s[i] != v then
      -1
    else if i == |s| || s[i] != v then
      i - 1
    else
      i
  }

  /** lastOf: the final element, which for an ascending list is its largest. */
  function LastOf(s: seq<int>): (r: int)
    requires |s| > 0
    ensures r in s
    ensures Ascending(s) ==> forall x :: x in s ==> x <= r
  {
    s[|s| - 1]
  }

  /** Where a value stands against a list, as the entry points Prev and
      Next test it level by level. */
  datatype Standing = AllAbove | AllBelow | Unlisted | Listed

  /** Prev's test of one level (sort.SearchInts, then the two checks on the
      returned index): every element above `v`, `v` unlisted with some
      element below it, or `v` listed. */
  function CheckPrev(s: seq<int>, v: int): (r: Standing)
    requires |s| > 0 && StrictlyAscending(s)
    ensures r != AllBelow
    ensures r == AllAbove <==> forall x :: x in s ==> x > v
    ensures r == Unlisted <==> v !in s && HasBelow(s, v)
    ensures r == Listed <==> v in s
  {
    var i := SearchInts(s, v);
    if i == 0 && s[i] != v then
      AllAbove
    else if i == |s| || v != s[i] then
      assert s[i - 1] in s;
      Unlisted
    else
      assert s[i] in s;
      Listed
  }

  /** Next's test of one level: every element below `v`, `v` unlisted with
      some element above it, or `v` listed. */
  function CheckNext(s: seq<int>, v: int): (r: Standing)
    requires |s| > 0 && StrictlyAscending(s)
    ensures r != AllAbove
    ensures r == AllBelow <==> forall x :: x in s ==> x < v
    ensures r == Unlisted <==> v !in s && HasAbove(s, v)
    ensures r == Listed <==> v in s
  {
    var i := SearchInts(s, v);
    if i == |s| then
      AllBelow
    else if v != s[i] then
      assert s[i] in s;
      Unlisted
    else
      assert s[i] in s;
      Listed
  }

  /** The largest element of `s` strictly below `v`, found as
      findTargetOrLower(s, v-1), the lookup every carry step makes. */
  function MaxBelow(s: seq<int>, v: int): (r: int)
    requires |s| > 0 && StrictlyAscending(s) && HasBelow(s, v)
    ensures r in s && r < v
    ensures forall x :: x in s && x < v ==> x <= r
  {
    s[FindTargetOrLower(s, v - 1)]
  }

  /** On an ascending list, findTargetOrLower(s, v-1) misses exactly when
      nothing in `s` is below `v`, and otherwise lands on MaxBelow(s, v). */
  lemma FindBelowCases(s: seq<int>, v: int)
    requires |s| > 0 && StrictlyAscending(s)
    ensures FindTargetOrLower(s, v - 1) == -1 <==> !HasBelow(s, v)
    ensures FindTargetOrLower(s, v - 1) != -1 ==> s[FindTargetOrLower(s, v - 1)] == MaxBelow(s, v)
  {
    var i := FindTargetOrLower(s, v - 1);
    if i != -1 {
      assert s[i] in s && s[i] < v;
    }
  }
}
