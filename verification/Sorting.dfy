/** Sorted distinct numbers: `[...new Set(values)].sort((a, b) => a - b)`. */
module Sorting {

  ghost predicate StrictlyIncreasing(s: seq<int>) {
    forall i, j :: 0 <= i < j < |s| ==> s[i] < s[j]
  }

  function InsertSorted(x: int, s: seq<int>): seq<int> {
    if |s| == 0 || x < s[0] then [x] + s
    else if x == s[0] then s
    else [s[0]] + InsertSorted(x, s[1..])
  }

  function SortDistinct(values: seq<int>): seq<int> {
    if |values| == 0 then [] else InsertSorted(values[0], SortDistinct(values[1..]))
  }

  lemma {:induction false} InsertedSorted(x: int, s: seq<int>)
    requires StrictlyIncreasing(s)
    ensures StrictlyIncreasing(InsertSorted(x, s))
    ensures forall v :: v in InsertSorted(x, s) <==> v == x || v in s
  {
    if |s| > 0 && x > s[0] {
      InsertedSorted(x, s[1..]);
      var t := InsertSorted(x, s[1..]);
      assert forall v :: v in s <==> v == s[0] || v in s[1..];
      forall i | 0 <= i < |t| ensures s[0] < t[i] {
        assert t[i] in t;
      }
    }
  }

  lemma {:induction false} SortedDistinct(values: seq<int>)
    ensures StrictlyIncreasing(SortDistinct(values))
    ensures forall v :: v in SortDistinct(values) <==> v in values
  {
    if |values| > 0 {
      SortedDistinct(values[1..]);
      InsertedSorted(values[0], SortDistinct(values[1..]));
    }
  }
}
