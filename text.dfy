/** The string handling the scheduler relies on: the `" - "` separator of a
    group key and `String.prototype.split` on it, and the default order of
    `Array.prototype.sort` on strings (code unit by code unit). */
module Text {
  import opened Collections

  /** The separator between category and gender in a group key. */
  const Sep: string := " - "

  /** The separator starts at index `i` of `s`. */
  predicate SepAt(s: string, i: int)
  {
    0 <= i && i + 2 < |s| && s[i] == ' ' && s[i + 1] == '-' && s[i + 2] == ' '
  }

  /** No space in `s` is directly followed by a dash. Such a string can never
      contribute to a separator on its left side, whatever follows it. */
  predicate Splittable(s: string)
  {
    forall j :: 0 <= j < |s| - 1 ==> !(s[j] == ' ' && s[j + 1] == '-')
  }

  /** The first separator at or after `from`, as `indexOf(" - ", from)`. */
  function FindSep(s: string, from: nat): (r: Option<nat>)
    decreases |s| - from
    ensures r.Some? ==> from <= r.value && SepAt(s, r.value)
    ensures r.Some? ==> forall j :: from <= j < r.value ==> !SepAt(s, j)
    ensures r.None? ==> forall j :: from <= j ==> !SepAt(s, j)
  {
    if from + 2 >= |s| then None
    else if SepAt(s, from) then Some(from)
    else FindSep(s, from + 1)
  }

  /** The field of a split that starts at `from`: the text up to the next
      separator, or to the end when there is none. */
  function FieldAt(s: string, from: nat): string
    requires from <= |s|
  {
    match FindSep(s, from)
    case None => s[from..]
    case Some(j) => s[from..j]
  }

  /** `const [catName, gender] = key.split(' - ')`: the first field, and the
      second one, which is `undefined` (here `None`) when the key holds no
      separator. */
  function SplitKey(key: string): (r: (string, Option<string>))
    ensures r.1.None? <==> FindSep(key, 0).None?
    ensures r.1.None? ==> r.0 == key
    ensures r.0 <= key && forall j :: 0 <= j < |r.0| ==> !SepAt(key, j)
  {
    match FindSep(key, 0)
    case None => (key, None)
    case Some(i) => (key[..i], Some(FieldAt(key, i + 3)))
  }

  /** When the key holds a separator, the first field ends at the first one
      and the second field is the text after it, up to the next separator or
      to the end. */
  lemma SplitKeyFields(key: string)
    ensures SplitKey(key).1.Some? ==> SepAt(key, |SplitKey(key).0|)
    ensures SplitKey(key).1.Some? ==> SplitKey(key).1.value == FieldAt(key, |SplitKey(key).0| + 3)
  {
  }

  /** Splitting a key built as `cat + " - " + g` gives back `(cat, g)`
      whenever neither part has a space followed by a dash. */
  lemma SplitJoin(cat: string, g: string)
    requires Splittable(cat) && Splittable(g)
    ensures SplitKey(cat + Sep + g) == (cat, Some(g))
  {
    var key := cat + Sep + g;
    var n := |cat|;
    assert SepAt(key, n);
    forall j | 0 <= j < n ensures !SepAt(key, j) {
      if j + 1 < n {
        assert key[j] == cat[j] && key[j + 1] == cat[j + 1];
      } else {
        assert key[j + 1] == ' ';
      }
    }
    assert FindSep(key, 0) == Some(n);
    forall j | n + 3 <= j ensures !SepAt(key, j) {
      if j + 1 < |key| {
        assert key[j] == g[j - n - 3] && key[j + 1] == g[j - n - 2];
      }
    }
    assert FindSep(key, n + 3).None?;
    assert key[..n] == cat && key[n + 3..] == g;
  }

  /** The default string order of `Array.prototype.sort`: lexicographic by
      character code, a proper prefix first. */
  predicate Below(a: string, b: string)
  {
    |b| > 0 && (|a| == 0 || a[0] < b[0] || (a[0] == b[0] && Below(a[1..], b[1..])))
  }

  lemma {:induction false} BelowIrreflexive(a: string)
    ensures !Below(a, a)
  {
    if |a| > 0 {
      BelowIrreflexive(a[1..]);
    }
  }

  lemma {:induction false} BelowTransitive(a: string, b: string, c: string)
    requires Below(a, b) && Below(b, c)
    ensures Below(a, c)
  {
    if |a| > 0 && a[0] == b[0] && b[0] == c[0] {
      BelowTransitive(a[1..], b[1..], c[1..]);
    }
  }

  lemma {:induction false} BelowTotal(a: string, b: string)
    ensures a == b || Below(a, b) || Below(b, a)
  {
    if |a| > 0 && |b| > 0 && a[0] == b[0] {
      BelowTotal(a[1..], b[1..]);
      if a[1..] == b[1..] {
        assert a == [a[0]] + a[1..] && b == [b[0]] + b[1..];
      }
    }
  }

  /** Strictly increasing, hence sorted without duplicates. */
  predicate StrictlySorted(ks: seq<string>)
  {
    forall i, j :: 0 <= i < j < |ks| ==> Below(ks[i], ks[j])
  }

  /** Adds `k` to a strictly sorted list at its place; no change if present. */
  function Insert(ks: seq<string>, k: string): (r: seq<string>)
    requires StrictlySorted(ks)
    ensures StrictlySorted(r)
    ensures forall x :: x in r <==> x in ks || x == k
  {
    if |ks| == 0 then [k]
    else if k == ks[0] then ks
    else if Below(k, ks[0]) then
      assert forall j :: 0 < j < |ks| ==> Below(k, ks[j]) by {
        forall j | 0 < j < |ks| ensures Below(k, ks[j]) {
          BelowTransitive(k, ks[0], ks[j]);
        }
      }
      [k] + ks
    else
      BelowTotal(k, ks[0]);
      var rest := Insert(ks[1..], k);
      assert forall x :: x in rest ==> Below(ks[0], x);
      [ks[0]] + rest
  }

  /** `Array.from(cats).sort()`: the elements of a set as a strictly sorted
      list. */
  method SortedList(cats: set<string>) returns (ks: seq<string>)
    ensures StrictlySorted(ks)
    ensures forall x :: x in ks <==> x in cats
  {
    ks := [];
    var rest := cats;
    while rest != {}
      invariant rest <= cats
      invariant StrictlySorted(ks)
      invariant forall x :: x in ks <==> x in cats && x !in rest
      decreases rest
    {
      var k :| k in rest;
      ks := Insert(ks, k);
      rest := rest - {k};
    }
  }

  /** Two strictly sorted lists with the same elements are equal: the sorted
      key list does not depend on the order in which the set was filled. */
  lemma {:induction false} SortedUnique(a: seq<string>, b: seq<string>)
    requires StrictlySorted(a) && StrictlySorted(b)
    requires forall x :: x in a <==> x in b
    ensures a == b
  {
    if |a| > 0 { assert a[0] in b; }
    if |b| > 0 { assert b[0] in a; }
    if |a| > 0 && |b| > 0 {
      if a[0] != b[0] {
        assert b[0] in a && a[0] in b;
        var i :| 0 <= i < |a| && a[i] == b[0];
        var j :| 0 <= j < |b| && b[j] == a[0];
        assert i > 0 && j > 0;
        BelowTransitive(a[0], a[i], a[0]);
        BelowIrreflexive(a[0]);
      }
      BelowIrreflexive(a[0]);
      forall x ensures x in a[1..] <==> x in b[1..] {
        if x in a[1..] {
          var i :| 1 <= i < |a| && a[i] == x;
          assert x in b;
          var j :| 0 <= j < |b| && b[j] == x;
          assert j != 0;
          assert b[1..][j - 1] == x;
        }
        if x in b[1..] {
          var j :| 1 <= j < |b| && b[j] == x;
          assert x in a;
          var i :| 0 <= i < |a| && a[i] == x;
          assert i != 0;
          assert a[1..][i - 1] == x;
        }
      }
      SortedUnique(a[1..], b[1..]);
      assert a == [a[0]] + a[1..] && b == [b[0]] + b[1..];
    }
  }
}
