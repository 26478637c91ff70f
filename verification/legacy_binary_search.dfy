/**
 * The position-returning binary_search of `include/algorithm/binary_search.hpp`.
 * Its halving loop is the same as lower_bound's, so it is modelled by
 * `BinarySearch.LowerBound`; the `<` overload is this search with `lt` the
 * built-in less-than.
 */
module LegacyBinarySearch {
  import opened Order
  import LinearSearch
  import Rtw = BinarySearch

  /** `binary_search(first, last, value)`: the lower bound when the value is
      not less than the element there, and |s| otherwise. On a sorted range
      that is the first element equivalent to the value, or |s| when there is
      none. */
  method BinarySearch<T(!new)>(lt: (T, T) -> bool, s: seq<T>, v: T) returns (i: int)
    ensures 0 <= i <= |s|
    ensures i < |s| ==> !lt(v, s[i])
    ensures Rtw.PartitionedBelow(lt, s, v) && i < |s| ==>
              Equivalent(lt, s[i], v) && forall k :: 0 <= k < i ==> lt(s[k], v)
    ensures StrictWeakOrder(lt) && Sorted(lt, s) ==> i == LinearSearch.First(s, x => Equivalent(lt, x, v))
  {
    var f := Rtw.LowerBound(lt, s, v);
    i := if f != |s| && !lt(v, s[f]) then f else |s|;
    if StrictWeakOrder(lt) && Sorted(lt, s) {
      Rtw.SortedPartitioned(lt, s, v);
      forall k | 0 <= k < i
        ensures !Equivalent(lt, s[k], v)
      {
        if k < f {
          assert lt(s[k], v);
        } else {
          // the value is less than s[f], hence less than everything behind it
          LtLeTrans(lt, v, s[f], s[k]);
        }
      }
      LinearSearch.FirstUnique(s, x => Equivalent(lt, x, v), i);
    }
  }

  /** The documented answer: with duplicates the first occurrence is found,
      so 2 in {1, 2, 2, 2, 5} is at position 1, and 4 in {1, 3, 5, 7, 9} is
      absent. */
  lemma LegacyExamples()
    ensures var less := (x: int, y: int) => x < y;
            && LinearSearch.First([1, 2, 2, 2, 5], x => Equivalent(less, x, 2)) == 1
            && LinearSearch.First([1, 3, 5, 7, 9], x => Equivalent(less, x, 4)) == 5
  {
  }
}
