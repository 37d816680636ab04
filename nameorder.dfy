/** Entry names are byte strings, and the unpacker visits them in the order
    Python's `sorted` gives byte strings: lexicographic on byte values, a
    proper prefix first. */
module NameOrder {
  import opened Bytes

  type Name = seq<byte>

  /** `a < b` on Python `bytes`. */
  predicate Less(a: Name, b: Name)
    decreases |a|
  {
    |b| > 0 && (|a| == 0 || a[0] < b[0] || (a[0] == b[0] && Less(a[1..], b[1..])))
  }

  lemma {:induction false} LessIrreflexive(a: Name)
    ensures !Less(a, a)
    decreases |a|
  {
    if |a| > 0 {
      LessIrreflexive(a[1..]);
    }
  }

  lemma {:induction false} LessTransitive(a: Name, b: Name, c: Name)
    requires Less(a, b) && Less(b, c)
    ensures Less(a, c)
    decreases |a|
  {
    if |a| > 0 && a[0] == b[0] == c[0] {
      LessTransitive(a[1..], b[1..], c[1..]);
    }
  }

  /** Any two different names are ordered one way or the other. */
  lemma {:induction false} LessTotal(a: Name, b: Name)
    ensures a == b || Less(a, b) || Less(b, a)
    decreases |a|
  {
    if |a| > 0 && |b| > 0 && a[0] == b[0] {
      LessTotal(a[1..], b[1..]);
      if a[1..] == b[1..] {
        assert a == [a[0]] + a[1..] && b == [b[0]] + b[1..];
      }
    }
  }

  lemma LessAsymmetric(a: Name, b: Name)
    requires Less(a, b)
    ensures !Less(b, a)
  {
    if Less(b, a) {
      LessTransitive(a, b, a);
      LessIrreflexive(a);
    }
  }

  /** Strictly increasing, hence also free of repeats. */
  predicate Sorted(s: seq<Name>)
  {
    forall i, j :: 0 <= i < j < |s| ==> Less(s[i], s[j])
  }

  function Elements(s: seq<Name>): set<Name>
  {
    set x | x in s
  }

  /** Insert a name that is not yet present into a sorted list. */
  function Insert(s: seq<Name>, x: Name): (r: seq<Name>)
    requires Sorted(s) && x !in s
    ensures Sorted(r) && Elements(r) == Elements(s) + {x} && |r| == |s| + 1
    decreases |s|
  {
    if s == [] then [x]
    else if Less(x, s[0]) then
      LessAfterFirst(s, x);
      [x] + s
    else
      LessTotal(x, s[0]);
      var rest := Insert(s[1..], x);
      HeadBelowAll(s, x, rest);
      var r := [s[0]] + rest;
      assert s == [s[0]] + s[1..];
      r
  }

  /** The head of a sorted list stays below everything once `x`, above
      it, joins the tail. */
  lemma HeadBelowAll(s: seq<Name>, x: Name, rest: seq<Name>)
    requires Sorted(s) && s != [] && Less(s[0], x)
    requires Elements(rest) == Elements(s[1..]) + {x}
    ensures forall j :: 0 <= j < |rest| ==> Less(s[0], rest[j])
  {
    forall j | 0 <= j < |rest|
      ensures Less(s[0], rest[j])
    {
      assert rest[j] in Elements(rest);
      if rest[j] != x {
        var k :| 0 <= k < |s[1..]| && s[1..][k] == rest[j];
        assert s[k + 1] == rest[j];
      }
    }
  }

  /** If `x` is below the head of a sorted list, it is below every element. */
  lemma LessAfterFirst(s: seq<Name>, x: Name)
    requires Sorted(s) && s != [] && Less(x, s[0])
    ensures forall j :: 0 <= j < |s| ==> Less(x, s[j])
  {
    forall j | 0 < j < |s| {
      LessTransitive(x, s[0], s[j]);
    }
  }

  /** Every finite set of names has a sorted listing. */
  lemma {:induction false} SortedListingExists(names: set<Name>)
    ensures exists r :: Sorted(r) && Elements(r) == names
    decreases |names|
  {
    if names == {} {
      assert Sorted([]) && Elements([]) == names;
    } else {
      var x :| x in names;
      SortedListingExists(names - {x});
      var r :| Sorted(r) && Elements(r) == names - {x};
      assert Sorted(Insert(r, x)) && Elements(Insert(r, x)) == names;
    }
  }

  /** A sorted listing is determined by its elements. */
  lemma {:induction false} SortedUnique(a: seq<Name>, b: seq<Name>)
    requires Sorted(a) && Sorted(b) && Elements(a) == Elements(b)
    ensures a == b
    decreases |a|
  {
    if a != [] {
      assert a[0] in Elements(a);
    }
    if b != [] {
      assert b[0] in Elements(b);
    }
    if a != [] && b != [] {
      if a[0] != b[0] {
        var i :| 0 <= i < |b| && b[i] == a[0];
        var j :| 0 <= j < |a| && a[j] == b[0];
        assert i > 0 && j > 0;
        assert Less(b[0], a[0]) && Less(a[0], b[0]);
        LessAsymmetric(a[0], b[0]);
      }
      assert Elements(a[1..]) == Elements(a) - {a[0]} by {
        assert a == [a[0]] + a[1..];
        forall y | y in a[1..] ensures y != a[0] {
          var k :| 0 <= k < |a[1..]| && a[1..][k] == y;
          assert Less(a[0], a[k + 1]);
          LessIrreflexive(a[0]);
        }
      }
      assert Elements(b[1..]) == Elements(b) - {b[0]} by {
        assert b == [b[0]] + b[1..];
        forall y | y in b[1..] ensures y != b[0] {
          var k :| 0 <= k < |b[1..]| && b[1..][k] == y;
          assert Less(b[0], b[k + 1]);
          LessIrreflexive(b[0]);
        }
      }
      SortedUnique(a[1..], b[1..]);
      assert a == [a[0]] + a[1..] && b == [b[0]] + b[1..];
    }
  }

  /** `sorted(names)`: the unique sorted listing of a set of names. */
  ghost function SortedNames(names: set<Name>): (r: seq<Name>)
    ensures Sorted(r) && Elements(r) == names
  {
    SortedListingExists(names);
    var r :| Sorted(r) && Elements(r) == names;
    r
  }

  /** `sorted(package_file_entries.keys())`, computed by inserting the
      names one at a time. */
  method Sort(names: set<Name>) returns (r: seq<Name>)
    ensures r == SortedNames(names)
  {
    r := [];
    var rest := names;
    while rest != {}
      invariant Sorted(r) && Elements(r) + rest == names && Elements(r) !! rest
      decreases |rest|
    {
      var x :| x in rest;
      r := Insert(r, x);
      rest := rest - {x};
    }
    SortedUnique(r, SortedNames(names));
  }
}
