/**
 * Python's built-in `max(items, key=f)` as app/app.py:53 and :58 use it: it scans
 * the items in order and replaces its current best only by an item whose key is
 * strictly greater, so it returns the first item whose key is maximal.
 */
module Selection {

  /** `k` is the first position of `s` whose key is maximal. */
  ghost predicate IsFirstMax<T>(s: seq<T>, key: T -> real, k: nat) {
    && k < |s|
    && (forall j :: 0 <= j < |s| ==> key(s[j]) <= key(s[k]))
    && (forall j :: 0 <= j < k ==> key(s[j]) < key(s[k]))
  }

  /** The position of the item `max(s, key=key)` returns. */
  function MaxIndex<T>(s: seq<T>, key: T -> real): (k: nat)
    requires |s| > 0
    ensures IsFirstMax(s, key, k)
  {
    if |s| == 1 then 0
    else
      var best := MaxIndex(s[..|s| - 1], key);
      if key(s[|s| - 1]) > key(s[best]) then |s| - 1 else best
  }

  /** At most one position is the first maximal one, so the choice is determined. */
  lemma FirstMaxUnique<T>(s: seq<T>, key: T -> real, k1: nat, k2: nat)
    requires IsFirstMax(s, key, k1) && IsFirstMax(s, key, k2)
    ensures k1 == k2
  {
    assert key(s[k1]) <= key(s[k2]) && key(s[k2]) <= key(s[k1]);
  }

  /** Appending an item moves the choice to it exactly when its key beats the current best. */
  lemma MaxIndexSnoc<T>(s: seq<T>, x: T, key: T -> real)
    requires |s| > 0
    ensures MaxIndex(s + [x], key) == if key(x) > key(s[MaxIndex(s, key)]) then |s| else MaxIndex(s, key)
  {
    assert (s + [x])[..|s|] == s;
  }
}
