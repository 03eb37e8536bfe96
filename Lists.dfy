/**
 * java.util.List operations the engine uses on word lists: removal of
 * one value, "append unless already contained" and reversal.
 */
module Lists {

  /** The list with every occurrence of x removed, the others in order. */
  function Without<T(==)>(s: seq<T>, x: T): (r: seq<T>)
    ensures |r| <= |s|
    ensures x !in r
  {
    if s == [] then []
    else Without(s[..|s| - 1], x) + (if s[|s| - 1] == x then [] else [s[|s| - 1]])
  }

  /** Without keeps exactly the elements other than x. */
  lemma {:induction false} WithoutContents<T>(s: seq<T>, x: T)
    ensures forall y :: y in Without(s, x) <==> y in s && y != x
  {
    if s != [] {
      WithoutContents(s[..|s| - 1], x);
      assert s == s[..|s| - 1] + [s[|s| - 1]];
    }
  }

  /** One more element of s examined by a loop that builds Without(s, x). */
  lemma WithoutStep<T>(s: seq<T>, k: nat, x: T)
    requires k < |s|
    ensures Without(s[..k + 1], x) == Without(s[..k], x) + (if s[k] == x then [] else [s[k]])
  {
    assert s[..k + 1][..k] == s[..k];
  }

  predicate NoDuplicates<T(==)>(s: seq<T>) {
    forall i, j :: 0 <= i < j < |s| ==> s[i] != s[j]
  }

  /**
   * `for (x : items) if (!list.contains(x)) list.add(x);` — each item is
   * tested against the list as it has grown so far.
   */
  function AppendAbsent<T(==)>(list: seq<T>, items: seq<T>): (r: seq<T>)
    ensures |list| <= |r| && r[..|list|] == list
  {
    if items == [] then list
    else
      var grown := AppendAbsent(list, items[..|items| - 1]);
      var x := items[|items| - 1];
      if x in grown then grown else grown + [x]
  }

  /**
   * One more element of s examined by a loop that appends, unless already
   * present, the elements of s other than x.
   */
  lemma AppendAbsentStep<T>(list: seq<T>, s: seq<T>, k: nat, x: T)
    requires k < |s|
    ensures var grown := AppendAbsent(list, Without(s[..k], x));
      AppendAbsent(list, Without(s[..k + 1], x)) == if s[k] in grown || s[k] == x then grown else grown + [s[k]]
  {
    WithoutStep(s, k, x);
    var items := Without(s[..k], x);
    if s[k] != x {
      var more := items + [s[k]];
      assert more[..|more| - 1] == items && more[|more| - 1] == s[k];
      assert AppendAbsent(list, more) == var grown := AppendAbsent(list, items);
        if s[k] in grown then grown else grown + [s[k]];
    } else {
      assert Without(s[..k + 1], x) == items;
    }
  }

  /** One more item examined by the loop that builds AppendAbsent(list, s). */
  lemma AppendAbsentPrefixStep<T>(list: seq<T>, s: seq<T>, k: nat)
    requires k < |s|
    ensures var grown := AppendAbsent(list, s[..k]);
      AppendAbsent(list, s[..k + 1]) == if s[k] in grown then grown else grown + [s[k]]
  {
    assert s[..k + 1][..k] == s[..k];
  }

  /** What AppendAbsent promises: every item ends up in the list, nothing else is added, and no item is added twice. */
  lemma {:induction false} AppendAbsentContents<T>(list: seq<T>, items: seq<T>)
    ensures var r := AppendAbsent(list, items);
      && (forall x :: x in r <==> x in list || x in items)
      && (forall i :: |list| <= i < |r| ==> r[i] !in list && r[i] !in r[|list|..i])
      && (NoDuplicates(list) ==> NoDuplicates(r))
  {
    if items != [] {
      AppendAbsentContents(list, items[..|items| - 1]);
      assert items == items[..|items| - 1] + [items[|items| - 1]];
      var grown := AppendAbsent(list, items[..|items| - 1]);
      var r := AppendAbsent(list, items);
      if items[|items| - 1] !in grown {
        assert r == grown + [items[|items| - 1]];
        assert forall i :: |list| <= i < |grown| ==> r[|list|..i] == grown[|list|..i];
        assert r[|list|..|grown|] == grown[|list|..];
        assert forall x :: x in grown[|list|..] ==> x in grown;
      }
    }
  }

  /** The list read backwards; Reverse(s)[i] == s[|s| - 1 - i]. */
  function Reverse<T>(s: seq<T>): (r: seq<T>)
    ensures |r| == |s|
    ensures forall i :: 0 <= i < |s| ==> r[i] == s[|s| - 1 - i]
  {
    if s == [] then [] else [s[|s| - 1]] + Reverse(s[..|s| - 1])
  }

  /** The elements of xs that occur in ys, in order: the `overlap` lists of the source. */
  function Retain<T(==,!new)>(xs: seq<T>, ys: seq<T>): (r: seq<T>)
    ensures |r| <= |xs|
    ensures forall x :: x in r <==> x in xs && x in ys
  {
    if xs == [] then []
    else
      var last := xs[|xs| - 1];
      assert forall x :: x in xs <==> x in xs[..|xs| - 1] || x == last;
      Retain(xs[..|xs| - 1], ys) + (if last in ys then [last] else [])
  }

  /** The elements of xs that do not occur in ys, in order: `xs.removeIf(ys::contains)`. */
  function Exclude<T(==,!new)>(xs: seq<T>, ys: seq<T>): (r: seq<T>)
    ensures |r| <= |xs|
    ensures forall x :: x in r <==> x in xs && x !in ys
  {
    if xs == [] then []
    else
      var last := xs[|xs| - 1];
      assert forall x :: x in xs <==> x in xs[..|xs| - 1] || x == last;
      Exclude(xs[..|xs| - 1], ys) + (if last in ys then [] else [last])
  }

  /** Filtering keeps the whole list exactly when every element passes. */
  lemma RetainAll<T(!new)>(xs: seq<T>, ys: seq<T>)
    ensures Retain(xs, ys) == xs <==> forall x :: x in xs ==> x in ys
  {
    if forall x :: x in xs ==> x in ys {
      RetainKeepsAll(xs, ys);
    }
  }

  lemma {:induction false} RetainKeepsAll<T(!new)>(xs: seq<T>, ys: seq<T>)
    requires forall x :: x in xs ==> x in ys
    ensures Retain(xs, ys) == xs
  {
    if xs != [] {
      var init, last := xs[..|xs| - 1], xs[|xs| - 1];
      assert init + [last] == xs;
      assert last in ys by { assert xs[|xs| - 1] == last; }
      forall x | x in init ensures x in ys {
        var i :| 0 <= i < |init| && init[i] == x;
        assert xs[i] == x;
      }
      RetainKeepsAll(init, ys);
      assert Retain(xs, ys) == Retain(init, ys) + [last];
    }
  }

  /** Removing by two lists that agree on the elements of xs removes the same elements. */
  lemma {:induction false} ExcludeSame<T(!new)>(xs: seq<T>, a: seq<T>, b: seq<T>)
    requires forall x :: x in xs ==> (x in a <==> x in b)
    ensures Exclude(xs, a) == Exclude(xs, b)
  {
    if xs != [] {
      var init := xs[..|xs| - 1];
      assert forall x :: x in init ==> x in xs;
      ExcludeSame(init, a, b);
      assert xs[|xs| - 1] in xs;
    }
  }

  /** One more element of xs examined by a loop that builds Retain(xs, ys). */
  lemma RetainStep<T(!new)>(xs: seq<T>, k: nat, ys: seq<T>)
    requires k < |xs|
    ensures Retain(xs[..k + 1], ys) == Retain(xs[..k], ys) + (if xs[k] in ys then [xs[k]] else [])
  {
    assert xs[..k + 1][..k] == xs[..k];
  }

  /** One more element of xs examined by a loop that builds Exclude(xs, ys). */
  lemma ExcludeStep<T(!new)>(xs: seq<T>, k: nat, ys: seq<T>)
    requires k < |xs|
    ensures Exclude(xs[..k + 1], ys) == Exclude(xs[..k], ys) + (if xs[k] in ys then [] else [xs[k]])
  {
    assert xs[..k + 1][..k] == xs[..k];
  }
}
