/** Hoare's quicksort in place, recursing into the smaller part only. */
module SortLongs {
  import opened Arithmetic

  // The same elements, those outside the range where they were.
  ghost predicate Rearranged(s: seq<int>, t: seq<int>, low: int, high: int) {
    && |s| == |t| && multiset(s) == multiset(t)
    && forall k :: 0 <= k < |s| && !(low <= k <= high) ==> t[k] == s[k]
  }

  lemma SameIsRearranged(s: seq<int>, low: int, high: int)
    ensures Rearranged(s, s, low, high)
  {
  }

  lemma RearrangedAgain(s: seq<int>, t: seq<int>, u: seq<int>, low: int, high: int, lo: int, hi: int)
    requires Rearranged(s, t, low, high) && Rearranged(t, u, lo, hi) && (lo <= hi ==> low <= lo && hi <= high)
    ensures Rearranged(s, u, low, high)
  {
  }

  lemma SwapRearranges(s: seq<int>, i: nat, j: nat, low: int, high: int)
    requires i < |s| && j < |s| && low <= i <= high && low <= j <= high
    ensures Rearranged(s, s[i := s[j]][j := s[i]], low, high)
  {
  }

  lemma RangeKept(s: seq<int>, t: seq<int>, low: nat, high: nat)
    requires Rearranged(s, t, low, high) && low <= high < |s|
    ensures multiset(s[low..high + 1]) == multiset(t[low..high + 1])
  {
    SidesKept(s, t, low, high);
    hide Rearranged;
    InThree(s, low, high + 1);
    InThree(t, low, high + 1);
    Cancel(multiset(s[..low]), multiset(s[low..high + 1]), multiset(t[low..high + 1]), multiset(s[high + 1..]));
  }

  lemma SidesKept(s: seq<int>, t: seq<int>, low: nat, high: nat)
    requires Rearranged(s, t, low, high) && low <= high < |s|
    ensures |s| == |t| && multiset(s) == multiset(t) && s[..low] == t[..low] && s[high + 1..] == t[high + 1..]
  {
  }

  lemma InThree(s: seq<int>, i: nat, j: nat)
    requires i <= j <= |s|
    ensures multiset(s) == multiset(s[..i]) + multiset(s[i..j]) + multiset(s[j..])
  {
    assert s == s[..i] + s[i..j] + s[j..];
  }

  lemma Cancel(a: multiset<int>, b: multiset<int>, c: multiset<int>, d: multiset<int>)
    requires a + b + d == a + c + d
    ensures b == c
  {
    forall x
      ensures b[x] == c[x]
    {
      assert (a + b + d)[x] == a[x] + b[x] + d[x] && (a + c + d)[x] == a[x] + c[x] + d[x];
    }
  }

  // Whatever stood in the range came from the range.
  lemma CameFrom(s: seq<int>, t: seq<int>, low: nat, high: nat, k: nat) returns (j: nat)
    requires Rearranged(s, t, low, high) && low <= k <= high < |s|
    ensures low <= j <= high && s[j] == t[k]
  {
    RangeKept(s, t, low, high);
    var before, after := s[low..high + 1], t[low..high + 1];
    assert after[k - low] in multiset(after);
    assert t[k] in before;
    var m :| 0 <= m < |before| && before[m] == t[k];
    j := low + m;
  }

  // Partitioned: the ends of the two parts, and what each is bounded by.
  ghost predicate Parted(s: seq<int>, low: int, high: int, i: int, j: int, pivot: int) {
    && low < i <= high + 1 && low - 1 <= j < high && j < i
    && (forall k :: 0 <= k < |s| && low <= k < i ==> s[k] <= pivot)
    && (forall k :: 0 <= k < |s| && j < k <= high ==> s[k] >= pivot)
  }

  method Swap(values: array<int>, i: int, j: int, ghost low: int, ghost high: int)
    requires 0 <= i < values.Length && 0 <= j < values.Length && low <= i <= high && low <= j <= high
    modifies values
    ensures values[i] == old(values[j]) && values[j] == old(values[i])
    ensures forall k :: 0 <= k < values.Length && k != i && k != j ==> values[k] == old(values[k])
    ensures Rearranged(old(values[..]), values[..], low, high)
  {
    ghost var before := values[..];
    values[i], values[j] := values[j], values[i];
    SwapRearranges(before, i, j, low, high);
    assert values[..] == before[i := before[j]][j := before[i]];
  }

  // Never reads outside the range, whatever stands there.
  method Partition(values: array<int>, low: int, high: int) returns (i: int, j: int, ghost pivot: int)
    requires 0 <= low < high < values.Length
    modifies values
    ensures Rearranged(old(values[..]), values[..], low, high)
    ensures Parted(values[..], low, high, i, j, pivot)
  {
    hide Rearranged;
    var middle := values[(low + high) / 2];
    pivot := middle;
    i, j := low, high;
    ghost var left, right := (low + high) / 2, (low + high) / 2;
    SameIsRearranged(values[..], low, high);
    while i <= j
      invariant low <= i <= high + 1 && low - 1 <= j <= high && ((i == low && j == high) || (low < i && j < high))
      invariant forall k :: low <= k < i ==> values[k] <= middle
      invariant forall k :: j < k <= high ==> values[k] >= middle
      invariant i <= j ==> i <= right <= high && values[right] >= middle && low <= left <= j && values[left] <= middle
      invariant Rearranged(old(values[..]), values[..], low, high)
      decreases j - i
    {
      ghost var i0, j0 := i, j;
      while values[i] < middle
        invariant i0 <= i <= right && forall k :: low <= k < i ==> values[k] <= middle
        decreases right - i
      {
        i := i + 1;
      }
      while values[j] > middle
        invariant left <= j <= j0 && forall k :: j < k <= high ==> values[k] >= middle
        decreases j - left
      {
        j := j - 1;
      }
      if i <= j {
        ghost var before := values[..];
        Swap(values, i, j, low, high);
        RearrangedAgain(old(values[..]), before, values[..], low, high, low, high);
        left, right := i, j;
        i, j := i + 1, j - 1;
      }
    }
  }

  // What is settled of a range: whatever lies before lo or after hi is in its place among all of the range.
  ghost predicate Settled(s: seq<int>, low: int, high: int, lo: int, hi: int) {
    forall a, b :: 0 <= a < b < |s| && low <= a && b <= high && (a < lo || b > hi) ==> s[a] <= s[b]
  }

  ghost predicate SortedIn(s: seq<int>, low: int, high: int) {
    forall a, b :: 0 <= a < b < |s| && low <= a && b <= high ==> s[a] <= s[b]
  }

  // A rearrangement inside what is not settled leaves the rest settled.
  lemma StillSettled(s: seq<int>, t: seq<int>, low: int, high: int, lo: nat, hi: int)
    requires Settled(s, low, high, lo, hi) && Rearranged(s, t, lo, hi) && low <= lo && hi <= high < |s|
    ensures Settled(t, low, high, lo, hi)
  {
    forall a, b | 0 <= a < b < |t| && low <= a && b <= high && (a < lo || b > hi)
      ensures t[a] <= t[b]
    {
      var i, j: nat := a, b;
      if lo <= a <= hi {
        i := CameFrom(s, t, lo, hi, a);
      } else if lo <= b <= hi {
        j := CameFrom(s, t, lo, hi, b);
      }
      assert s[i] <= s[j];
    }
  }

  // Sorting one part settles it, and leaves the other.
  lemma SettledMore(s: seq<int>, t: seq<int>, low: int, high: int, lo: nat, hi: int, i: int, j: int, pivot: int, left: bool)
    requires Settled(s, low, high, lo, hi) && low <= lo && hi <= high < |s| && lo < hi && Parted(s, lo, hi, i, j, pivot)
    requires if left then Rearranged(s, t, lo, j) && SortedIn(t, lo, j) else Rearranged(s, t, i, hi) && SortedIn(t, i, hi)
    ensures if left then Settled(t, low, high, i, hi) else Settled(t, low, high, lo, j)
  {
    PartStillParted(s, t, lo, hi, i, j, pivot, left);
    SameIsRearranged(s, lo, hi);
    RearrangedAgain(s, s, t, lo, hi, if left then lo else i, if left then j else hi);
    StillSettled(s, t, low, high, lo, hi);
    hide Rearranged;
  }

  lemma PartStillParted(s: seq<int>, t: seq<int>, lo: nat, hi: int, i: int, j: int, pivot: int, left: bool)
    requires lo < hi < |s| && Parted(s, lo, hi, i, j, pivot)
    requires if left then Rearranged(s, t, lo, j) else Rearranged(s, t, i, hi)
    ensures Parted(t, lo, hi, i, j, pivot)
  {
    forall k | 0 <= k < |t| && lo <= k < i
      ensures t[k] <= pivot
    {
      if left && k <= j {
        var m := CameFrom(s, t, lo, j, k);
      }
    }
    forall k | 0 <= k < |t| && j < k <= hi
      ensures t[k] >= pivot
    {
      if !left && i <= k {
        var m := CameFrom(s, t, i, hi, k);
      }
    }
  }

  // Sorts the range in place. The calls nest no deeper than the base-two logarithm of its length.
  method Sort(values: array<int>, low0: int, high0: int) returns (ghost depth: nat)
    requires 0 <= low0 && high0 < values.Length
    modifies values
    ensures SortedIn(values[..], low0, high0)
    ensures Rearranged(old(values[..]), values[..], low0, high0)
    ensures low0 < high0 ==> Pow2(depth) <= high0 - low0 + 1
    ensures low0 >= high0 ==> depth == 0
    decreases high0 - low0
  {
    hide Rearranged, Settled, SortedIn, Parted;
    var low, high := low0, high0;
    depth := 0;
    SameIsRearranged(values[..], low, high);
    NothingSettled(values[..], low, high);
    while low < high
      invariant low0 <= low && high <= high0
      invariant Rearranged(old(values[..]), values[..], low0, high0)
      invariant Settled(values[..], low0, high0, low, high)
      invariant low0 < high0 ==> Pow2(depth) <= high0 - low0 + 1
      invariant low0 >= high0 ==> depth == 0
      decreases high - low
    {
      ghost var before := values[..];
      var i, j;
      ghost var pivot;
      i, j, pivot := Partition(values, low, high);
      ghost var parted := values[..];
      EndsOf(parted, low, high, i, j, pivot);
      StillSettled(before, parted, low0, high0, low, high);
      RearrangedAgain(old(values[..]), before, parted, low0, high0, low, high);
      ghost var deeper;
      if j - low < high - i {
        deeper := Sort(values, low, j);
        SettledMore(parted, values[..], low0, high0, low, high, i, j, pivot, true);
        RearrangedAgain(old(values[..]), parted, values[..], low0, high0, low, j);
        Halved(deeper, j - low + 1, high0 - low0 + 1);
        low := i;
      } else {
        deeper := Sort(values, i, high);
        SettledMore(parted, values[..], low0, high0, low, high, i, j, pivot, false);
        RearrangedAgain(old(values[..]), parted, values[..], low0, high0, i, high);
        Halved(deeper, high - i + 1, high0 - low0 + 1);
        high := j;
      }
      depth := if depth < deeper + 1 then deeper + 1 else depth;
    }
    AllSettled(values[..], low0, high0, low, high);
  }

  lemma EndsOf(s: seq<int>, low: int, high: int, i: int, j: int, pivot: int)
    requires Parted(s, low, high, i, j, pivot)
    ensures low < i <= high + 1 && low - 1 <= j < high && j < i
  {
  }

  lemma Halved(deeper: nat, part: int, whole: int)
    requires 2 * part <= whole && whole >= 2
    requires if part > 1 then Pow2(deeper) <= part else deeper == 0
    ensures Pow2(deeper + 1) <= whole
  {
  }

  lemma NothingSettled(s: seq<int>, low: int, high: int)
    ensures Settled(s, low, high, low, high)
  {
  }

  lemma AllSettled(s: seq<int>, low: int, high: int, lo: int, hi: int)
    requires Settled(s, low, high, lo, hi) && lo >= hi
    ensures SortedIn(s, low, high)
  {
  }
}
