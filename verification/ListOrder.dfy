/** What list_add (libs/common/finstypes.c) does to the sequence of a list's elements, and when that is sorting. */
module ListOrder {
  /** The comparer's answers: -1 goes before, 0 do not insert, 1 goes after. */
  type Comparer<!T> = (T, T) -> int

  /** What list_add ends with; NoPlace is the exit marked "unreachable insert location". */
  datatype Outcome = Added | Refused | NoPlace

  /** The first index from i on at which the comparer does not say "after". */
  function Stop<T>(s: seq<T>, x: T, cmp: Comparer<T>, i: nat): (k: nat)
    requires i <= |s|
    ensures i <= k <= |s|
    ensures forall j :: i <= j < k ==> cmp(x, s[j]) != -1 && cmp(x, s[j]) != 0
    ensures k < |s| ==> cmp(x, s[k]) == -1 || cmp(x, s[k]) == 0
    decreases |s| - i
  {
    if i == |s| || cmp(x, s[i]) == -1 || cmp(x, s[i]) == 0 then i else Stop(s, x, cmp, i + 1)
  }

  function InsertAt<T>(s: seq<T>, k: nat, x: T): seq<T>
    requires k <= |s|
  {
    s[..k] + [x] + s[k..]
  }

  /** list_add: front first, then end, then a scan from the second element on. */
  function AddTo<T>(s: seq<T>, x: T, cmp: Comparer<T>): (Outcome, seq<T>) {
    if s == [] then (Added, [x])
    else
      var atFront, atEnd := cmp(x, s[0]), cmp(x, s[|s| - 1]);
      if atFront == -1 then (Added, InsertAt(s, 0, x))
      else if atFront == 0 then (Refused, s)
      else if atEnd == 1 then (Added, InsertAt(s, |s|, x))
      else if atEnd == 0 then (Refused, s)
      else
        var k := Stop(s, x, cmp, 1);
        if k == |s| then (NoPlace, s)
        else if cmp(x, s[k]) == -1 then (Added, InsertAt(s, k, x))
        else (Refused, s)
  }

  /**
    The exit for "unreachable insert location" is taken exactly when the comparer answers -1 or 0 for no
    element and something other than -1, 0 and 1 for the last; a comparer that keeps to its three answers
    never gets there, sorted list or not.
   */
  lemma NoPlaceIff<T>(s: seq<T>, x: T, cmp: Comparer<T>)
    ensures AddTo(s, x, cmp).0.NoPlace? <==>
      s != [] && cmp(x, s[|s| - 1]) != 1 && forall j :: 0 <= j < |s| ==> cmp(x, s[j]) != -1 && cmp(x, s[j]) != 0
  {
    if s != [] && forall j :: 0 <= j < |s| ==> cmp(x, s[j]) != -1 && cmp(x, s[j]) != 0 {
      var k := Stop(s, x, cmp, 1);
      assert k == |s|;
      assert cmp(x, s[0]) != -1 && cmp(x, s[|s| - 1]) != 0;
    }
  }

  // ----- sorted lists -----

  /** A comparer that behaves like an order in which equal elements may be refused or let in behind. */
  ghost predicate Ordering<T(!new)>(cmp: Comparer<T>) {
    && (forall a, b :: cmp(a, b) == -1 || cmp(a, b) == 0 || cmp(a, b) == 1)
    && (forall a, b :: cmp(a, b) == -1 ==> cmp(b, a) == 1)
    && (forall a, b, c :: cmp(b, a) == 1 && cmp(c, b) == 1 ==> cmp(c, a) == 1)
    && (forall a, b, c :: cmp(a, b) == -1 && cmp(c, b) == 1 ==> cmp(a, c) == -1)
  }

  /** Every element goes after every earlier one. */
  ghost predicate Sorted<T>(s: seq<T>, cmp: Comparer<T>) {
    forall i, j :: 0 <= i < j < |s| ==> cmp(s[j], s[i]) == 1
  }

  /** The plain insertion: one scan from the front. */
  function ScanAdd<T>(s: seq<T>, x: T, cmp: Comparer<T>): (Outcome, seq<T>) {
    var k := Stop(s, x, cmp, 0);
    if k == |s| || cmp(x, s[k]) == -1 then (Added, InsertAt(s, k, x)) else (Refused, s)
  }

  /** On a sorted list the shortcuts at the front and the end give what a scan from the front gives. */
  lemma AddIsScan<T(!new)>(s: seq<T>, x: T, cmp: Comparer<T>)
    requires Ordering(cmp) && Sorted(s, cmp)
    ensures AddTo(s, x, cmp) == ScanAdd(s, x, cmp)
  {
    if s == [] {
      assert InsertAt(s, 0, x) == [x];
    } else {
      var last := s[|s| - 1];
      var k := Stop(s, x, cmp, 0);
      if cmp(x, last) == 1 {
        forall j | 0 <= j < |s| ensures cmp(x, s[j]) == 1 {
          assert j == |s| - 1 || cmp(last, s[j]) == 1;
        }
      } else if k < |s| && cmp(x, s[k]) == -1 {
        assert k == |s| - 1 || cmp(last, s[k]) == 1;
        assert cmp(x, last) == -1;
      }
      if cmp(x, s[0]) == 1 { StopSkips(s, x, cmp); }
    }
  }

  lemma StopSkips<T>(s: seq<T>, x: T, cmp: Comparer<T>)
    requires s != [] && cmp(x, s[0]) != -1 && cmp(x, s[0]) != 0
    ensures Stop(s, x, cmp, 0) == Stop(s, x, cmp, 1)
  {
  }

  /** A sorted list stays sorted, gaining exactly the new element, or is unchanged when it is refused. */
  lemma AddKeepsSorted<T(!new)>(s: seq<T>, x: T, cmp: Comparer<T>)
    requires Ordering(cmp) && Sorted(s, cmp)
    ensures var (o, t) := AddTo(s, x, cmp);
      && Sorted(t, cmp) && !o.NoPlace?
      && (o.Added? ==> multiset(t) == multiset(s) + multiset{x})
      && (o.Refused? ==> t == s && exists j :: 0 <= j < |s| && cmp(x, s[j]) == 0)
  {
    AddIsScan(s, x, cmp);
    var k := Stop(s, x, cmp, 0);
    if k == |s| || cmp(x, s[k]) == -1 {
      InsertSorted(s, x, cmp, k);
      InsertBag(s, k, x);
    }
  }

  lemma InsertSorted<T(!new)>(s: seq<T>, x: T, cmp: Comparer<T>, k: nat)
    requires Ordering(cmp) && Sorted(s, cmp) && k <= |s|
    requires (forall j :: 0 <= j < k ==> cmp(x, s[j]) == 1) && (k < |s| ==> cmp(x, s[k]) == -1)
    ensures Sorted(InsertAt(s, k, x), cmp)
  {
    var t := InsertAt(s, k, x);
    forall i, j | 0 <= i < j < |t| ensures cmp(t[j], t[i]) == 1 {
      assert i < k ==> t[i] == s[i];
      assert i > k ==> t[i] == s[i - 1];
      assert j < k ==> t[j] == s[j];
      assert j > k ==> t[j] == s[j - 1];
      if i == k {
        assert cmp(x, s[k]) == -1 && (j - 1 == k || cmp(s[j - 1], s[k]) == 1);
        assert cmp(x, s[j - 1]) == -1;
      }
    }
  }

  lemma InsertBag<T>(s: seq<T>, k: nat, x: T)
    requires k <= |s|
    ensures multiset(InsertAt(s, k, x)) == multiset(s) + multiset{x}
  {
    assert s == s[..k] + s[k..];
  }
}
