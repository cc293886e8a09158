/**
 * An insertion-ordered set of values, as a JavaScript `Set` behaves: `add`
 * appends a value that is not yet present and leaves a present one where it
 * is, `delete` takes a value out and keeps the order of the rest, and
 * spreading the set (`[...set]`) lists the values in insertion order.
 * The set is represented by the sequence of that listing.
 */
module OrderedSet {

  /** No value occurs twice. */
  predicate Distinct<T(==)>(s: seq<T>) {
    forall i, j :: 0 <= i < j < |s| ==> s[i] != s[j]
  }

  /** `Set.prototype.add`. */
  function Add<T(==,!new)>(s: seq<T>, x: T): (r: seq<T>)
    ensures x in r
    ensures forall y :: y in r <==> y in s || y == x
    ensures x in s ==> r == s
    ensures |s| <= |r| && r[..|s|] == s
    ensures Distinct(s) ==> Distinct(r)
  {
    if x in s then s else s + [x]
  }

  /** `Set.prototype.delete`. */
  function Remove<T(==,!new)>(s: seq<T>, x: T): (r: seq<T>)
    ensures x !in r
    ensures forall y :: y in r <==> y in s && y != x
    ensures x !in s ==> r == s
    ensures |r| <= |s|
    ensures Distinct(s) ==> Distinct(r)
  {
    if s == [] then []
    else if s[0] == x then Remove(s[1..], x)
    else
      var rest := Remove(s[1..], x);
      assert Distinct(s) ==> s[0] !in s[1..];
      [s[0]] + rest
  }

  /** The position of the first occurrence of `x` in `s`. */
  function FirstIndex<T(==)>(s: seq<T>, x: T): (k: nat)
    requires x in s
    ensures k < |s| && s[k] == x && x !in s[..k]
  {
    if s[0] == x then 0
    else
      assert s[1..][..FirstIndex(s[1..], x)] == s[1..FirstIndex(s[1..], x) + 1];
      FirstIndex(s[1..], x) + 1
  }

  /** Appending a value moves no first occurrence, and the appended value's is at the end when it is new. */
  lemma FirstIndexAppend<T(!new)>(s: seq<T>, z: T, x: T)
    requires x in s + [z]
    ensures x in s ==> FirstIndex(s + [z], x) == FirstIndex(s, x)
    ensures x !in s ==> FirstIndex(s + [z], x) == |s|
  {
    var k := FirstIndex(s + [z], x);
    assert (s + [z])[..k] == if k <= |s| then s[..k] else s + [z];
    if x in s {
      var m := FirstIndex(s, x);
      assert (s + [z])[m] == x;
      assert s[..m] == (s + [z])[..m];
    }
  }

  /**
   * Adding the last value of a list to a listing of the rest, in first-occurrence
   * order, gives a listing of the whole list in first-occurrence order.
   */
  lemma AddKeepsFirstOrder<T(!new)>(init: seq<T>, last: T, d: seq<T>)
    requires forall y :: y in d <==> y in init
    requires forall i, j :: 0 <= i < j < |d| ==> FirstIndex(init, d[i]) < FirstIndex(init, d[j])
    ensures var list, r := init + [last], Add(d, last);
      forall i, j :: 0 <= i < j < |r| ==> FirstIndex(list, r[i]) < FirstIndex(list, r[j])
  {
    var list, r := init + [last], Add(d, last);
    forall i, j | 0 <= i < j < |r| ensures FirstIndex(list, r[i]) < FirstIndex(list, r[j]) {
      assert r[i] == d[i] && d[i] in init;
      FirstIndexAppend(init, last, r[i]);
      FirstIndexAppend(init, last, r[j]);
      if j < |d| {
        assert r[j] == d[j] && d[j] in init;
      } else {
        assert r[j] == last && last !in init;
      }
    }
  }

  /**
   * `new Set(list)`: the values of `list` without repetition, in the order of
   * their first occurrence.
   */
  function Dedup<T(==,!new)>(list: seq<T>): (r: seq<T>)
    ensures Distinct(r)
    ensures forall y :: y in r <==> y in list
    ensures forall i, j :: 0 <= i < j < |r| ==> FirstIndex(list, r[i]) < FirstIndex(list, r[j])
    ensures Distinct(list) ==> r == list
  {
    if list == [] then []
    else
      var init := list[..|list| - 1];
      var last := list[|list| - 1];
      assert Distinct(list) ==> Distinct(init);
      assert list == init + [last];
      AddKeepsFirstOrder(init, last, Dedup(init));
      Add(Dedup(init), last)
  }

  /** The Hide/Unhide toggle: delete a present value, add an absent one. */
  function Toggle<T(==,!new)>(s: seq<T>, x: T): (r: seq<T>)
    ensures x in r <==> x !in s
    ensures forall y :: y != x ==> (y in r <==> y in s)
    ensures Distinct(s) ==> Distinct(r)
  {
    if x in s then Remove(s, x) else Add(s, x)
  }

  /** In a set without repetitions, deleting the value at position `k` closes the gap at `k`. */
  lemma {:induction false} RemoveAt<T(!new)>(s: seq<T>, k: nat)
    requires Distinct(s) && k < |s|
    ensures Remove(s, s[k]) == s[..k] + s[k + 1..]
  {
    if k == 0 {
      assert s[0] !in s[1..];
    } else {
      var t := s[1..];
      DistinctTail(s);
      RemoveAt(t, k - 1);
      assert t[k - 1] == s[k] && s[0] != s[k];
      SpliceTail(s, k);
    }
  }

  /** Dropping the first value keeps a listing free of repetitions. */
  lemma DistinctTail<T(!new)>(s: seq<T>)
    requires Distinct(s) && s != []
    ensures Distinct(s[1..])
  {
    forall i, j | 0 <= i < j < |s| - 1 ensures s[1..][i] != s[1..][j] {
      assert s[1..][i] == s[i + 1] && s[1..][j] == s[j + 1];
    }
  }

  /** Cutting out position `k > 0` is the head followed by the tail with its position `k - 1` cut out. */
  lemma SpliceTail<T(!new)>(s: seq<T>, k: nat)
    requires 0 < k < |s|
    ensures s[..k] + s[k + 1..] == [s[0]] + (s[1..][..k - 1] + s[1..][k..])
  {
    assert s[1..][..k - 1] == s[1..k] && s[1..][k..] == s[k + 1..];
  }

  /** Deleting a value that was just added restores the listing exactly. */
  lemma {:induction false} RemoveAfterAdd<T(!new)>(s: seq<T>, x: T)
    requires x !in s
    ensures Remove(Add(s, x), x) == s
  {
    if s == [] {
    } else {
      RemoveAfterAdd(s[1..], x);
      assert (s + [x])[1..] == s[1..] + [x];
    }
  }

  /**
   * Two toggles of the same value restore membership of every value. When
   * the value was absent they restore the listing exactly; when it was
   * present it comes back at the end of the listing.
   */
  lemma ToggleTwice<T(!new)>(s: seq<T>, x: T)
    requires Distinct(s)
    ensures forall y :: y in Toggle(Toggle(s, x), x) <==> y in s
    ensures x !in s ==> Toggle(Toggle(s, x), x) == s
    ensures x in s ==> Toggle(Toggle(s, x), x) == Remove(s, x) + [x]
  {
    if x !in s {
      RemoveAfterAdd(s, x);
    }
  }
}
