/**
 * Python's ordering of `str` values (code point by code point, a proper
 * prefix first) and `sorted` applied to the names of a directory.
 */
module TextOrder {

  /** `a < b` on Python strings. */
  predicate Less(a: string, b: string)
    decreases |a|
  {
    if a == [] then b != []
    else if b == [] then false
    else if a[0] != b[0] then a[0] < b[0]
    else Less(a[1..], b[1..])
  }

  lemma {:induction false} LessIrreflexive(a: string)
    ensures !Less(a, a)
  {
    if a != [] {
      LessIrreflexive(a[1..]);
    }
  }

  lemma {:induction false} LessTransitive(a: string, b: string, c: string)
    requires Less(a, b) && Less(b, c)
    ensures Less(a, c)
  {
    if a != [] && a[0] == b[0] && b[0] == c[0] {
      LessTransitive(a[1..], b[1..], c[1..]);
    }
  }

  /** Any two different names are ordered one way or the other. */
  lemma {:induction false} LessTotal(a: string, b: string)
    requires a != b
    ensures Less(a, b) || Less(b, a)
  {
    if a != [] && b != [] && a[0] == b[0] {
      assert a == [a[0]] + a[1..] && b == [b[0]] + b[1..];
      LessTotal(a[1..], b[1..]);
    }
  }

  ghost predicate StrictlyAscending(s: seq<string>)
  {
    forall i, j :: 0 <= i < j < |s| ==> Less(s[i], s[j])
  }

  /** Inserts a new name into an ascending listing. */
  function Insert(s: seq<string>, x: string): (r: seq<string>)
    requires StrictlyAscending(s) && x !in s
    ensures StrictlyAscending(r)
    ensures forall y :: y in r <==> y in s || y == x
    ensures |r| == |s| + 1
  {
    if s == [] then [x]
    else if Less(x, s[0]) then
      assert forall j :: 0 < j < |s| ==> Less(x, s[j]) by {
        forall j | 0 < j < |s| ensures Less(x, s[j]) {
          LessTransitive(x, s[0], s[j]);
        }
      }
      [x] + s
    else
      LessTotal(x, s[0]);
      var tail := Insert(s[1..], x);
      assert forall y :: y in tail ==> Less(s[0], y);
      [s[0]] + tail
  }

  /** The ascending listing of a set of names: what `sorted` returns. */
  ghost function Listing(names: set<string>): (r: seq<string>)
    ensures StrictlyAscending(r)
    ensures forall y :: y in r <==> y in names
    decreases names
  {
    if names == {} then []
    else
      var x :| x in names;
      Insert(Listing(names - {x}), x)
  }

  /** An ascending listing of a set is unique. */
  lemma {:induction false} AscendingUnique(a: seq<string>, b: seq<string>)
    requires StrictlyAscending(a) && StrictlyAscending(b)
    requires forall y :: y in a <==> y in b
    ensures a == b
  {
    assert a != [] ==> a[0] in b;
    assert b != [] ==> b[0] in a;
    if a != [] {
      if a[0] != b[0] {
        assert a[0] in b;
        assert b[0] in a;
        var m :| 0 <= m < |a| && a[m] == b[0];
        var n :| 0 <= n < |b| && b[n] == a[0];
        assert Less(a[0], b[0]) by {
          assert m > 0;
        }
        assert Less(b[0], a[0]) by {
          assert n > 0;
        }
        LessTransitive(a[0], b[0], a[0]);
        LessIrreflexive(a[0]);
        assert false;
      }
      forall y
        ensures y in a[1..] <==> y in b[1..]
      {
        if y in a[1..] {
          var i :| 1 <= i < |a| && a[i] == y;
          LessIrreflexive(y);
          assert y in b && y != b[0];
          assert y in b[1..] by {
            assert b == [b[0]] + b[1..];
          }
        }
        if y in b[1..] {
          var i :| 1 <= i < |b| && b[i] == y;
          LessIrreflexive(y);
          assert y in a && y != a[0];
          assert y in a[1..] by {
            assert a == [a[0]] + a[1..];
          }
        }
      }
      AscendingUnique(a[1..], b[1..]);
      assert a == [a[0]] + a[1..] && b == [b[0]] + b[1..];
    }
  }

  /** Names below `name`, then `name`, then names above it, stay ascending. */
  lemma AscendingAround(lb: seq<string>, name: string, la: seq<string>)
    requires StrictlyAscending(lb) && StrictlyAscending(la)
    requires forall y :: y in lb ==> Less(y, name)
    requires forall y :: y in la ==> Less(name, y)
    ensures StrictlyAscending(lb + [name] + la)
  {
    var all := lb + [name] + la;
    forall i, j | 0 <= i < j < |all|
      ensures Less(all[i], all[j])
    {
      if j < |lb| {
        assert all[i] == lb[i] && all[j] == lb[j];
      } else if i < |lb| && j == |lb| {
        assert all[i] in lb;
      } else if i < |lb| {
        assert all[i] in lb && all[j] in la;
        LessTransitive(all[i], name, all[j]);
      } else if i == |lb| {
        assert all[j] in la;
      } else {
        assert all[i] == la[i - |lb| - 1] && all[j] == la[j - |lb| - 1];
      }
    }
  }

  /**
   * The listing of a set splits at any of its names: the names below it,
   * the name, then the names above it.
   */
  lemma ListingSplit(names: set<string>, name: string, below: set<string>, above: set<string>)
    requires name in names
    requires forall n :: n in below <==> n in names && Less(n, name)
    requires forall n :: n in above <==> n in names && Less(name, n)
    ensures Listing(names) == Listing(below) + [name] + Listing(above)
  {
    var lb := Listing(below);
    var la := Listing(above);
    AscendingAround(lb, name, la);
    var all := lb + [name] + la;
    forall y
      ensures y in all <==> y in names
    {
      if y in names && y != name {
        LessTotal(y, name);
      }
      if y in lb {
        LessIrreflexive(name);
      }
    }
    AscendingUnique(all, Listing(names));
  }

  /** `sorted(names)`: the names in ascending order. */
  method SortNames(names: set<string>) returns (r: seq<string>)
    ensures StrictlyAscending(r)
    ensures forall y :: y in r <==> y in names
    ensures r == Listing(names)
  {
    r := [];
    var rest := names;
    while rest != {}
      invariant rest <= names
      invariant StrictlyAscending(r)
      invariant forall y :: y in r <==> y in names && y !in rest
      decreases rest
    {
      var x :| x in rest;
      r := Insert(r, x);
      rest := rest - {x};
    }
    AscendingUnique(r, Listing(names));
  }
}
