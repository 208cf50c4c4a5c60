/** Text compared character by character, and the sorted listing of a set of texts. */
module TextOrder {

  predicate Below(a: string, b: string) {
    b != [] && (a == [] || a[0] < b[0] || (a[0] == b[0] && Below(a[1..], b[1..])))
  }

  lemma {:induction false} BelowIsIrreflexive(a: string)
    ensures !Below(a, a)
  {
    if a != [] { BelowIsIrreflexive(a[1..]); }
  }

  lemma {:induction false} BelowIsTotal(a: string, b: string)
    ensures a == b || Below(a, b) || Below(b, a)
  {
    if a != [] && b != [] {
      BelowIsTotal(a[1..], b[1..]);
      assert a == [a[0]] + a[1..] && b == [b[0]] + b[1..];
    }
  }

  lemma {:induction false} BelowIsTransitive(a: string, b: string, c: string)
    requires Below(a, b) && Below(b, c)
    ensures Below(a, c)
  {
    if a != [] && a[0] == b[0] && b[0] == c[0] { BelowIsTransitive(a[1..], b[1..], c[1..]); }
  }

  predicate Ascending(s: seq<string>) {
    forall i, j :: 0 <= i < j < |s| ==> Below(s[i], s[j])
  }

  function Elements<T>(s: seq<T>): set<T> {
    set x | x in s
  }

  lemma AppendAssociates<T>(a: seq<T>, b: seq<T>, c: seq<T>)
    ensures (a + b) + c == a + (b + c)
  {
  }

  lemma ElementsOfAppend<T>(s: seq<T>, t: seq<T>)
    ensures Elements(s + t) == Elements(s) + Elements(t)
  {
    assert forall x :: x in s + t <==> x in s || x in t;
  }

  lemma ElementsOfPrefix<T>(s: seq<T>, i: nat)
    requires i < |s|
    ensures Elements(s[..i + 1]) == Elements(s[..i]) + {s[i]}
  {
    assert s[..i + 1] == s[..i] + [s[i]];
    ElementsOfAppend(s[..i], [s[i]]);
  }

  predicate Distinct<T(==)>(s: seq<T>) {
    forall i, j :: 0 <= i < j < |s| ==> s[i] != s[j]
  }

  lemma AscendingIsDistinct(s: seq<string>)
    requires Ascending(s)
    ensures Distinct(s)
  {
    forall i, j | 0 <= i < j < |s| ensures s[i] != s[j] { BelowIsIrreflexive(s[i]); }
  }

  lemma NothingListed<T>(s: seq<T>)
    ensures s == [] <==> Elements(s) == {}
  {
    if s != [] { assert s[0] in Elements(s); }
  }

  /** A sorted listing is determined by what it lists. */
  lemma {:induction false} SortedIsUnique(s: seq<string>, t: seq<string>)
    requires Ascending(s) && Ascending(t) && Elements(s) == Elements(t)
    ensures s == t
  {
    if s == [] || t == [] {
      NothingListed(s);
      NothingListed(t);
    } else {
      assert s[0] in Elements(t) && t[0] in Elements(s);
      var i :| 0 <= i < |t| && t[i] == s[0];
      var j :| 0 <= j < |s| && s[j] == t[0];
      if i > 0 && j > 0 {
        BelowIsTransitive(s[0], t[0], s[0]);
        BelowIsIrreflexive(s[0]);
      }
      AscendingIsDistinct(s);
      AscendingIsDistinct(t);
      assert Elements(s[1..]) == Elements(s) - {s[0]};
      assert Elements(t[1..]) == Elements(t) - {t[0]};
      SortedIsUnique(s[1..], t[1..]);
      assert s == [s[0]] + s[1..] && t == [t[0]] + t[1..];
    }
  }

  method Least(items: set<string>) returns (least: string)
    requires items != {}
    ensures least in items && forall x :: x in items && x != least ==> Below(least, x)
  {
    least :| least in items;
    var rest := items - {least};
    while rest != {}
      invariant rest <= items && least in items && least !in rest
      invariant forall x :: x in items && x !in rest && x != least ==> Below(least, x)
      decreases |rest|
    {
      var x :| x in rest;
      rest := rest - {x};
      BelowIsTotal(least, x);
      if Below(x, least) {
        forall y | y in items && y !in rest && y != x && y != least ensures Below(x, y) {
          BelowIsTransitive(x, least, y);
        }
        least := x;
      }
    }
  }

  /** `sorted` of a set. */
  method Sorted(items: set<string>) returns (s: seq<string>)
    ensures Ascending(s) && Elements(s) == items && |s| == |items|
  {
    s := [];
    var rest := items;
    while rest != {}
      invariant rest <= items && Ascending(s) && Elements(s) == items - rest
      invariant forall x, y :: x in s && y in rest ==> Below(x, y)
      invariant |s| + |rest| == |items|
      decreases |rest|
    {
      var least := Least(rest);
      ElementsOfAppend(s, [least]);
      s := s + [least];
      rest := rest - {least};
    }
  }
}
