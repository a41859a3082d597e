/** The rules drawing.js applies to its ordered selection list and to the
    focused position in it, stated on plain sequences so that the drawing
    state (layout.dfy) can use them: `indexOf`, `splice(i, 1)`, the toggle of
    `toggleSelection`, the clamping of `updateFocusAfterSelection` and the
    modular steps of the `]` and `[` keys. */
module Selection {

  /** No element occurs twice. */
  predicate NoDup<T(==)>(s: seq<T>)
  {
    forall i, j :: 0 <= i < j < |s| ==> s[i] != s[j]
  }

  lemma NoDupCons<T>(x: T, s: seq<T>)
    ensures NoDup([x] + s) <==> x !in s && NoDup(s)
  {
    if NoDup([x] + s) {
      forall k | 0 <= k < |s|
        ensures s[k] != x
      {
        assert ([x] + s)[0] == x && ([x] + s)[k + 1] == s[k];
      }
      forall i, j | 0 <= i < j < |s|
        ensures s[i] != s[j]
      {
        assert ([x] + s)[i + 1] == s[i] && ([x] + s)[j + 1] == s[j];
      }
    }
    if x !in s && NoDup(s) {
      forall i, j | 0 <= i < j < |[x] + s|
        ensures ([x] + s)[i] != ([x] + s)[j]
      {
        if i > 0 {
          assert ([x] + s)[i] == s[i - 1];
        }
        assert ([x] + s)[j] == s[j - 1];
      }
    }
  }

  /** `Array.prototype.indexOf`: the first position holding x, or -1. */
  function IndexOf<T(==)>(s: seq<T>, x: T): (i: int)
    ensures -1 <= i < |s|
    ensures i == -1 <==> x !in s
    ensures 0 <= i ==> s[i] == x && x !in s[..i]
  {
    if |s| == 0 then -1
    else if s[0] == x then 0
    else
      var j := IndexOf(s[1..], x);
      if j == -1 then -1
      else
        assert s[..j + 1] == [s[0]] + s[1..][..j];
        j + 1
  }

  lemma NoDupSnoc<T>(s: seq<T>, x: T)
    requires NoDup(s + [x])
    ensures x !in s && NoDup(s)
  {
    forall i, j | 0 <= i < j < |s|
      ensures s[i] != s[j]
    {
      assert s[i] == (s + [x])[i] && s[j] == (s + [x])[j];
    }
    forall i | 0 <= i < |s|
      ensures s[i] != x
    {
      assert s[i] == (s + [x])[i] && x == (s + [x])[|s|];
    }
  }

  lemma IndexOfCons<T>(a: T, s: seq<T>, x: T)
    ensures IndexOf([a] + s, x) ==
      if a == x then 0 else if IndexOf(s, x) == -1 then -1 else IndexOf(s, x) + 1
  {
    assert ([a] + s)[1..] == s;
  }

  lemma RemoveAtCons<T>(a: T, s: seq<T>, i: nat)
    requires i < |s|
    ensures RemoveAt([a] + s, i + 1) == [a] + RemoveAt(s, i)
  {
  }

  /** `splice(i, 1)`: the element at i is removed, the others keep their order. */
  function RemoveAt<T>(s: seq<T>, i: nat): (r: seq<T>)
    requires i < |s|
    ensures |r| == |s| - 1
    ensures forall k :: 0 <= k < i ==> r[k] == s[k]
    ensures forall k :: i <= k < |r| ==> r[k] == s[k + 1]
  {
    s[..i] + s[i + 1..]
  }

  /** Removing a position from a list without duplicates removes exactly
      that element and keeps the list free of duplicates. */
  lemma RemoveAtNoDup<T>(s: seq<T>, i: nat)
    requires i < |s| && NoDup(s)
    ensures NoDup(RemoveAt(s, i))
    ensures forall y :: y in RemoveAt(s, i) <==> y in s && y != s[i]
  {
    var r := RemoveAt(s, i);
    forall y | y in s && y != s[i]
      ensures y in r
    {
      var k :| 0 <= k < |s| && s[k] == y;
      if k < i { assert r[k] == y; } else { assert r[k - 1] == y; }
    }
  }

  /** `toggleSelection(x, forceOn)` on the list: a selected x is spliced out
      unless forceOn, an unselected x is appended, and a selected x with
      forceOn leaves the list as it was. Every other element keeps its
      membership; the splice keeps the others in order, and the list stays
      free of duplicates. */
  function Toggled<T(==,!new)>(sel: seq<T>, x: T, forceOn: bool): (r: seq<T>)
    ensures NoDup(sel) ==> (x in r <==> forceOn || x !in sel)
    ensures forall y :: y != x ==> (y in r <==> y in sel)
    ensures x !in sel ==> r == sel + [x]
    ensures x in sel && forceOn ==> r == sel
    ensures x in sel && !forceOn ==> r == RemoveAt(sel, IndexOf(sel, x))
    ensures x in sel && !forceOn ==> |r| == |sel| - 1
    ensures NoDup(sel) ==> NoDup(r)
  {
    var i := IndexOf(sel, x);
    if i >= 0 && !forceOn then
      ToggleOffFacts(sel, x, i);
      RemoveAt(sel, i)
    else if i < 0 then
      assert NoDup(sel) ==> NoDup(sel + [x]);
      sel + [x]
    else sel
  }

  lemma ToggleOffFacts<T>(sel: seq<T>, x: T, i: nat)
    requires i < |sel| && sel[i] == x && x !in sel[..i]
    ensures NoDup(sel) ==> x !in RemoveAt(sel, i)
    ensures forall y :: y != x ==> (y in RemoveAt(sel, i) <==> y in sel)
    ensures NoDup(sel) ==> NoDup(RemoveAt(sel, i))
  {
    var r := RemoveAt(sel, i);
    forall y | y != x && y in sel
      ensures y in r
    {
      var k :| 0 <= k < |sel| && sel[k] == y;
      if k < i { assert r[k] == y; } else { assert r[k - 1] == y; }
    }
    if NoDup(sel) {
      RemoveAtNoDup(sel, i);
    }
  }

  /** `updateFocusAfterSelection`: -1 exactly when the list is empty,
      otherwise the old focus pulled into 0 .. n - 1. A focus already in
      range is kept. */
  function Clamped(focus: int, n: nat): (f: int)
    ensures f == -1 <==> n == 0
    ensures n > 0 ==> 0 <= f < n
    ensures 0 <= focus < n ==> f == focus
    ensures n > 0 && focus < 0 ==> f == 0
    ensures n > 0 && focus >= n ==> f == n - 1
  {
    if n == 0 then -1
    else if focus < 0 then 0
    else if focus >= n then n - 1
    else focus
  }

  /** JavaScript's `%` for a positive divisor: the remainder of |a| by b,
      with the sign of the dividend a (Dafny's own `%` is never negative). */
  function JsRem(a: int, b: int): (r: int)
    requires b > 0
    ensures -b < r < b
    ensures a >= 0 ==> r == a % b
    ensures a < 0 ==> r == -((-a) % b)
  {
    if a >= 0 then a % b else -((-a) % b)
  }

  /** The `]` key: `(focusIndex + 1) % selected.length`. */
  function FocusNext(focus: int, n: nat): (f: int)
    requires n > 0
    ensures -1 <= focus < n ==> 0 <= f < n
    ensures -1 <= focus && focus + 1 < n ==> f == focus + 1
    ensures focus + 1 == n ==> f == 0
  {
    JsRem(focus + 1, n)
  }

  /** The `[` key: `(focusIndex - 1 + selected.length) % selected.length`. */
  function FocusPrev(focus: int, n: nat): (f: int)
    requires n > 0
    ensures -1 <= focus < n ==> 0 <= f < n
    ensures 0 < focus < n ==> f == focus - 1
    ensures focus == 0 ==> f == n - 1
  {
    JsRem(focus - 1 + n, n)
  }

  /** On an in-range focus, `[` undoes `]` and `]` undoes `[`. */
  lemma PrevUndoesNext(focus: int, n: nat)
    requires 0 <= focus < n
    ensures FocusPrev(FocusNext(focus, n), n) == focus
    ensures FocusNext(FocusPrev(focus, n), n) == focus
  {
  }
}
