/** The order `sort.Strings` puts field names in, and what makes it canonical. */
module FieldOrder {
  import opened Cells

  predicate Leq(a: string, b: string) {
    a == "" || (b != "" && (a[0] < b[0] || (a[0] == b[0] && Leq(a[1..], b[1..]))))
  }

  ghost predicate Sorted(s: seq<string>) {
    forall i, j :: 0 <= i < j < |s| ==> Leq(s[i], s[j])
  }

  lemma {:induction false} LeqTotal(a: string, b: string)
    ensures Leq(a, b) || Leq(b, a)
    ensures Leq(a, b) && Leq(b, a) ==> a == b
  {
    if a != "" && b != "" {
      LeqTotal(a[1..], b[1..]);
      assert a == [a[0]] + a[1..] && b == [b[0]] + b[1..];
    }
  }

  lemma {:induction false} LeqTransitive(a: string, b: string, c: string)
    requires Leq(a, b) && Leq(b, c)
    ensures Leq(a, c)
  {
    if a != "" && a[0] == b[0] == c[0] {
      LeqTransitive(a[1..], b[1..], c[1..]);
    }
  }

  /** Inserts `x` into a sorted list of other names. */
  method Insert(s: seq<string>, x: string) returns (r: seq<string>)
    requires Sorted(s) && x !in s && forall i, j :: 0 <= i < j < |s| ==> s[i] != s[j]
    ensures Sorted(r) && Enumerates(r, Elements(s) + {x})
  {
    var k := 0;
    while k < |s| && Leq(s[k], x)
      invariant 0 <= k <= |s|
      invariant forall i :: 0 <= i < k ==> Leq(s[i], x)
    {
      k := k + 1;
    }
    forall i | k <= i < |s| ensures Leq(x, s[i]) {
      LeqTotal(x, s[k]);
      if i > k { LeqTransitive(x, s[k], s[i]); }
    }
    r := s[..k] + [x] + s[k..];
  }

  method Sort(s: seq<string>) returns (r: seq<string>)
    requires forall i, j :: 0 <= i < j < |s| ==> s[i] != s[j]
    ensures Sorted(r) && Enumerates(r, Elements(s))
  {
    r := [];
    for i := 0 to |s|
      invariant Sorted(r) && Enumerates(r, Elements(s[..i]))
    {
      assert s[i] !in r by { assert forall j :: 0 <= j < i ==> s[j] != s[i]; }
      r := Insert(r, s[i]);
      assert Elements(s[..i]) + {s[i]} == Elements(s[..i + 1]);
    }
    assert s[..|s|] == s;
  }

  /** A set of names has one sorted enumeration, so the columns of two schemas with the same names
      are hashed in the same order. */
  lemma {:induction false} SortedIsCanonical(a: seq<string>, b: seq<string>, names: set<string>)
    requires Sorted(a) && Sorted(b) && Enumerates(a, names) && Enumerates(b, names)
    ensures a == b
  {
    EmptyEnumeration(a, names);
    EmptyEnumeration(b, names);
    if a != [] {
      assert a[0] in b && b[0] in a;
      FirstIsLeast(a, b[0]);
      FirstIsLeast(b, a[0]);
      LeqTotal(a[0], b[0]);
      TailEnumerates(a, names);
      TailEnumerates(b, names);
      SortedIsCanonical(a[1..], b[1..], names - {a[0]});
      assert a == [a[0]] + a[1..] && b == [b[0]] + b[1..];
    }
  }

  lemma EmptyEnumeration(s: seq<string>, names: set<string>)
    requires Enumerates(s, names)
    ensures s == [] <==> names == {}
  {
    if s != [] {
      assert s[0] in s;
    }
  }

  lemma FirstIsLeast(s: seq<string>, x: string)
    requires Sorted(s) && x in s
    ensures Leq(s[0], x)
  {
    LeqTotal(x, x);
  }

  lemma TailEnumerates(s: seq<string>, names: set<string>)
    requires s != [] && Enumerates(s, names)
    ensures Enumerates(s[1..], names - {s[0]})
  {
  }
}
