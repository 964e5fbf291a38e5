/** Paths as strings with slashes and as lists of names. */
module Paths {
  import opened Bytes

  // Names that a path can be made of.
  predicate Named(parts: seq<Name>) {
    forall i :: 0 <= i < |parts| ==> IsName(parts[i])
  }

  predicate IsName(name: Name) { name != [] && SLASH !in name }

  // One more byte at the front of the first part.
  function Grow(c: byte, parts: seq<Name>): seq<Name>
    requires parts != []
  {
    [[c] + parts[0]] + parts[1..]
  }

  function Split(s: Name): (parts: seq<Name>)
    ensures parts != [] && forall i :: 0 <= i < |parts| ==> SLASH !in parts[i]
  {
    if s == [] then [[]]
    else if s[0] == SLASH then [[]] + Split(s[1..])
    else Grow(s[0], Split(s[1..]))
  }

  function Join(parts: seq<Name>): Name {
    if parts == [] then [] else if |parts| == 1 then parts[0] else parts[0] + [SLASH] + Join(parts[1..])
  }

  lemma GrowConcat(c: byte, x: seq<Name>, y: seq<Name>)
    requires x != []
    ensures Grow(c, x + y) == Grow(c, x) + y
  {
    assert (x + y)[1..] == x[1..] + y;
  }

  lemma SplitStep(s: Name)
    requires s != []
    ensures Split(s) == if s[0] == SLASH then [[]] + Split(s[1..]) else Grow(s[0], Split(s[1..]))
  {
  }

  lemma {:induction false} SplitConcat(a: Name, b: Name)
    ensures Split(a + [SLASH] + b) == Split(a) + Split(b)
  {
    var s := a + [SLASH] + b;
    hide Split, Grow;
    SplitStep(s);
    if a == [] {
      assert s[1..] == b;
      SplitEmpty();
    } else {
      SplitConcat(a[1..], b);
      SplitStep(a);
      GrowConcat(a[0], Split(a[1..]), Split(b));
      assert s[1..] == a[1..] + [SLASH] + b && s[0] == a[0];
      assert [[]] + (Split(a[1..]) + Split(b)) == [[]] + Split(a[1..]) + Split(b);
    }
  }

  lemma SplitEmpty()
    ensures Split([]) == [[]]
  {
  }

  lemma {:induction false} SplitName(a: Name)
    requires SLASH !in a
    ensures Split(a) == [a]
  {
    if a != [] {
      SplitName(a[1..]);
      assert [a[0]] + a[1..] == a;
    }
  }

  /** Names joined by slashes are taken apart again. */
  lemma {:induction false} SplitJoin(parts: seq<Name>)
    requires parts != [] && Named(parts)
    ensures Split(Join(parts)) == parts && Join(parts) != []
    ensures Join(parts)[0] != SLASH && Join(parts)[|Join(parts)| - 1] != SLASH
  {
    hide Split;
    var a := parts[0];
    assert a[0] in a && a[|a| - 1] in a;
    SplitName(a);
    if |parts| > 1 {
      SplitJoin(parts[1..]);
      SplitConcat(a, Join(parts[1..]));
      assert [a] + parts[1..] == parts;
    }
  }

  /** The parts of a string, joined by slashes, are the string. */
  lemma {:induction false} JoinSplit(s: Name)
    ensures Join(Split(s)) == s
  {
    if s != [] {
      var rest := Split(s[1..]);
      JoinSplit(s[1..]);
      SplitStep(s);
      if s[0] == SLASH {
        assert ([[]] + rest)[1..] == rest;
      } else {
        JoinGrow(s[0], rest);
      }
    }
  }

  lemma JoinGrow(c: byte, parts: seq<Name>)
    requires parts != []
    ensures Join(Grow(c, parts)) == [c] + Join(parts)
  {
    assert Grow(c, parts)[1..] == parts[1..];
  }

  lemma {:induction false} JoinMore(parts: seq<Name>, name: Name)
    ensures Join(parts + [name]) == if parts == [] then name else Join(parts) + [SLASH] + name
  {
    var more := parts + [name];
    if |parts| > 0 {
      JoinMore(parts[1..], name);
      assert more[1..] == parts[1..] + [name];
    }
  }
}
