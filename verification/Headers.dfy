/** Deduplicating the header names of a CSV file. */
module Headers {

  // ---- Numbers in decimal ----

  function DigitOf(d: nat): char
    requires d < 10
  {
    '0' + d as char
  }

  function Decimal(n: nat): (s: string)
    ensures s != ""
  {
    if n < 10 then [DigitOf(n)] else Decimal(n / 10) + [DigitOf(n % 10)]
  }

  predicate AllDigits(s: string) {
    forall i :: 0 <= i < |s| ==> '0' <= s[i] <= '9'
  }

  /** Reading decimal text by the codes of its characters. */
  function ReadDecimal(s: string): nat
    requires AllDigits(s)
  {
    if s == "" then 0 else ReadDecimal(s[..|s| - 1]) * 10 + (s[|s| - 1] as int - '0' as int)
  }

  /** The text of a number reads as that number, and starts with a zero only when it is 0. */
  lemma {:induction false} DecimalReads(n: nat)
    ensures AllDigits(Decimal(n)) && ReadDecimal(Decimal(n)) == n
    ensures Decimal(n)[0] == '0' <==> n == 0
    ensures n == 0 ==> Decimal(n) == "0"
  {
    var s := Decimal(n);
    var d := DigitOf(n % 10);
    assert s[|s| - 1] == d && '0' <= d <= '9' && d as int - '0' as int == n % 10;
    if n >= 10 {
      DecimalReads(n / 10);
      assert s[..|s| - 1] == Decimal(n / 10);
    } else {
      assert s[..|s| - 1] == "" && ReadDecimal("") == 0;
    }
  }

  lemma DecimalInjective(a: nat, b: nat)
    requires Decimal(a) == Decimal(b)
    ensures a == b
  {
    DecimalReads(a);
    DecimalReads(b);
  }

  /** The name with which a repeated header is tried for the k-th time. */
  function Suffixed(name: string, k: nat): string {
    name + " (" + Decimal(k) + ")"
  }

  lemma SuffixedInjective(name: string, a: nat, b: nat)
    requires Suffixed(name, a) == Suffixed(name, b)
    ensures a == b
  {
    var start := |name| + 2;
    var s := Suffixed(name, a);
    assert s[start..|s| - 1] == Decimal(a);
    assert Suffixed(name, b)[start..|s| - 1] == Decimal(b);
    DecimalInjective(a, b);
  }

  // ---- The suffix search stops ----

  /** The first k suffixed names. */
  function Tried(name: string, k: int): set<string> {
    set j | 1 <= j <= k :: Suffixed(name, j)
  }

  lemma {:induction false} TriedCount(name: string, k: nat)
    ensures |Tried(name, k)| == k
  {
    if k == 0 {
      assert Tried(name, 0) == {};
    } else {
      TriedCount(name, k - 1);
      assert Suffixed(name, k) !in Tried(name, k - 1) by {
        if Suffixed(name, k) in Tried(name, k - 1) {
          var j :| 1 <= j <= k - 1 && Suffixed(name, k) == Suffixed(name, j);
          SuffixedInjective(name, k, j);
        }
      }
      assert Tried(name, k) == Tried(name, k - 1) + {Suffixed(name, k)};
    }
  }

  lemma {:induction false} SubsetSize<T>(a: set<T>, b: set<T>)
    requires a <= b
    ensures |a| <= |b|
  {
    assert b == a + (b - a);
  }

  /** Pigeonhole: among |used| + 1 suffixed names one is not used. */
  lemma TriedBound(name: string, k: nat, used: set<string>)
    requires Tried(name, k) <= used
    ensures k <= |used|
  {
    TriedCount(name, k);
    SubsetSize(Tried(name, k), used);
  }

  // ---- What deduplication gives ----

  /** `name` becomes `out` when `used` are taken: itself if free, else its first free suffixed form. */
  ghost predicate Renamed(name: string, out: string, used: set<string>) {
    && out !in used
    && (name !in used ==> out == name)
    && (name in used ==> exists k :: IsFirstFree(name, k, used) && out == Suffixed(name, k))
  }

  ghost predicate IsFirstFree(name: string, k: nat, used: set<string>) {
    k >= 1 && Suffixed(name, k) !in used && Tried(name, k - 1) <= used
  }

  function Names(s: seq<string>): set<string> {
    set x <- s
  }

  ghost predicate IsDeduped(headers: seq<string>, out: seq<string>) {
    |out| == |headers| && forall i :: 0 <= i < |headers| ==> Renamed(headers[i], out[i], Names(out[..i]))
  }

  ghost predicate Distinct(s: seq<string>) {
    forall i, j :: 0 <= i < j < |s| ==> s[i] != s[j]
  }

  method Dedupe(headers: seq<string>) returns (out: seq<string>)
    ensures IsDeduped(headers, out)
  {
    var existed: set<string> := {};
    var newHeaders := new string[|headers|];
    for idx := 0 to |headers|
      invariant existed == Names(newHeaders[..idx])
      invariant forall i :: 0 <= i < idx ==> Renamed(headers[i], newHeaders[i], Names(newHeaders[..i]))
    {
      ghost var before := newHeaders[..idx];
      var name := headers[idx];
      if name in existed {
        name := FreeName(name, existed);
      }
      newHeaders[idx] := name;
      existed := existed + {name};
      assert newHeaders[..idx + 1] == before + [name];
      forall i | 0 <= i <= idx ensures newHeaders[..i] == before[..i] {}
    }
    out := newHeaders[..];
    forall i | 0 <= i < |headers| ensures out[..i] == newHeaders[..i] {}
  }

  method FreeName(name: string, existed: set<string>) returns (newName: string)
    ensures exists k :: IsFirstFree(name, k, existed) && newName == Suffixed(name, k)
  {
    var number := 1;
    newName := Suffixed(name, number);
    while newName in existed
      invariant number >= 1 && newName == Suffixed(name, number)
      invariant Tried(name, number - 1) <= existed
      decreases |existed| + 1 - number
    {
      assert Tried(name, number) == Tried(name, number - 1) + {newName};
      TriedBound(name, number, existed);
      number := number + 1;
      newName := Suffixed(name, number);
    }
    assert IsFirstFree(name, number, existed);
  }

  // ---- Properties ----

  lemma DedupedIsDistinct(headers: seq<string>, out: seq<string>)
    requires IsDeduped(headers, out)
    ensures Distinct(out)
  {
  }

  lemma RenamedIsUnique(name: string, x: string, y: string, used: set<string>)
    requires Renamed(name, x, used) && Renamed(name, y, used)
    ensures x == y
  {
  }

  /** The result is determined by the headers. */
  lemma {:induction false} DedupedIsUnique(headers: seq<string>, a: seq<string>, b: seq<string>, n: nat)
    requires IsDeduped(headers, a) && IsDeduped(headers, b) && n <= |headers|
    ensures a[..n] == b[..n]
  {
    hide Renamed;
    if n > 0 {
      DedupedIsUnique(headers, a, b, n - 1);
      RenamedIsUnique(headers[n - 1], a[n - 1], b[n - 1], Names(a[..n - 1]));
      assert a[..n] == a[..n - 1] + [a[n - 1]] && b[..n] == b[..n - 1] + [b[n - 1]];
    }
  }

  /** Deduplication changes nothing exactly when there is nothing to do. */
  lemma UnchangedIffDistinct(headers: seq<string>, out: seq<string>)
    requires IsDeduped(headers, out)
    ensures out == headers <==> Distinct(headers)
  {
    DedupedIsDistinct(headers, out);
    if Distinct(headers) {
      DistinctIsDeduped(headers);
      DedupedIsUnique(headers, headers, out, |headers|);
      assert headers[..|headers|] == headers && out[..|headers|] == out;
    }
  }

  lemma DistinctIsDeduped(headers: seq<string>)
    requires Distinct(headers)
    ensures IsDeduped(headers, headers)
  {
  }

  lemma Idempotent(headers: seq<string>, once: seq<string>, twice: seq<string>)
    requires IsDeduped(headers, once) && IsDeduped(once, twice)
    ensures twice == once
  {
    DedupedIsDistinct(headers, once);
    UnchangedIffDistinct(once, twice);
  }

  // ---- Which headers keep their names ----

  lemma SuffixParts(name: string, k: nat)
    ensures var s := Suffixed(name, k);
      && s[..|name|] == name && s[|name| + 1] == '(' && |s| > |name| + 2
      && forall i :: |name| + 2 <= i < |s| ==> s[i] != '('
  {
    DecimalReads(k);
    var s := Suffixed(name, k);
    forall i | |name| + 2 <= i < |s| - 1 ensures s[i] in Decimal(k) {
      assert s[i] == Decimal(k)[i - |name| - 2];
    }
  }

  /** A suffixed name tells the name and the number. */
  lemma SuffixedUnique(m: string, k: nat, n: string, l: nat)
    requires Suffixed(m, k) == Suffixed(n, l)
    ensures m == n && k == l
  {
    SuffixParts(m, k);
    SuffixParts(n, l);
    hide Suffixed;
    assert |m| == |n|;
    SuffixedInjective(m, k, l);
  }

  /** The header keeps its name: it is its first occurrence, and where it has the form of a suffixed name
      m (k), the repetitions of m before it and the kept headers m (1) .. m (k-1) are too few to reach k. */
  ghost predicate Keeps(headers: seq<string>, i: nat)
    requires i < |headers|
    decreases i, 1
  {
    && headers[i] !in headers[..i]
    && forall m, k: nat :: k >= 1 && headers[i] == Suffixed(m, k) ==>
      Repetitions(headers, i, m) + KeptBelow(headers, i, m, k) < k
  }

  /** How many of the first `n` headers are `m` and do not keep their name. */
  ghost function Repetitions(headers: seq<string>, n: nat, m: string): nat
    requires n <= |headers|
    decreases n, 0
  {
    if n == 0 then 0 else
      Repetitions(headers, n - 1, m) + if headers[n - 1] == m && !Keeps(headers, n - 1) then 1 else 0
  }

  /** How many of the first `n` headers keep a name among m (1) .. m (k-1). */
  ghost function KeptBelow(headers: seq<string>, n: nat, m: string, k: nat): nat
    requires n <= |headers|
    decreases n, 0
  {
    if n == 0 then 0 else
      KeptBelow(headers, n - 1, m, k) + if headers[n - 1] in Tried(m, k - 1) && Keeps(headers, n - 1) then 1 else 0
  }

  /** How many of m (1) .. m (k-1) are used. */
  function UsedBelow(used: set<string>, m: string, k: nat): nat {
    if k <= 1 then 0 else UsedBelow(used, m, k - 1) + if Suffixed(m, k - 1) in used then 1 else 0
  }

  lemma {:induction false} UsedBelowBound(used: set<string>, m: string, k: nat)
    requires k >= 1
    ensures UsedBelow(used, m, k) <= k - 1
    ensures Tried(m, k - 1) <= used ==> UsedBelow(used, m, k) == k - 1
  {
    if k > 1 {
      UsedBelowBound(used, m, k - 1);
      assert Tried(m, k - 1) == Tried(m, k - 2) + {Suffixed(m, k - 1)};
    }
  }

  lemma {:induction false} UsedBelowGrows(used: set<string>, s: string, m: string, k: nat)
    requires s !in used && k >= 1
    ensures UsedBelow(used + {s}, m, k) == UsedBelow(used, m, k) + if s in Tried(m, k - 1) then 1 else 0
  {
    hide Suffixed;
    if k > 1 {
      UsedBelowGrows(used, s, m, k - 1);
      assert Tried(m, k - 1) == Tried(m, k - 2) + {Suffixed(m, k - 1)};
      forall j | 1 <= j <= k - 2 ensures Suffixed(m, j) != Suffixed(m, k - 1) {
        if Suffixed(m, j) == Suffixed(m, k - 1) { SuffixedUnique(m, j, m, k - 1); }
      }
    }
  }

  /** The counts tell which suffixed names are used. */
  ghost predicate CountOk(headers: seq<string>, used: set<string>, n: nat, m: string, k: nat)
    requires n <= |headers|
  {
    var count := Repetitions(headers, n, m) + KeptBelow(headers, n, m, k);
    && (Suffixed(m, k) !in used ==> count == UsedBelow(used, m, k))
    && (Suffixed(m, k) in used && Suffixed(m, k) !in headers[..n] ==> count >= k)
  }

  ghost predicate CountsOk(headers: seq<string>, used: set<string>, n: nat)
    requires n <= |headers|
  {
    forall m, k: nat :: k >= 1 ==> CountOk(headers, used, n, m, k)
  }

  lemma HeadersAreUsed(headers: seq<string>, out: seq<string>, n: nat, j: nat)
    requires IsDeduped(headers, out) && j < n <= |headers|
    ensures headers[j] in Names(out[..n])
  {
    hide Suffixed;
    assert Renamed(headers[j], out[j], Names(out[..j]));
    assert out[j] == out[..n][j];
    if headers[j] in Names(out[..j]) {
      var i :| 0 <= i < j && out[..j][i] == headers[j];
      assert out[..n][i] == headers[j];
    }
  }

  /** A used name that is no earlier header is the first free form of a repeated one. */
  lemma UsedByRepetition(headers: seq<string>, out: seq<string>, n: nat, x: string) returns (j: nat, k: nat)
    requires IsDeduped(headers, out) && n <= |headers| && x in Names(out[..n]) && x !in headers[..n]
    ensures j < n && k >= 1 && x == Suffixed(headers[j], k)
  {
    hide Suffixed;
    j :| 0 <= j < n && out[..n][j] == x;
    assert headers[..n][j] == headers[j];
    assert Renamed(headers[j], out[j], Names(out[..j]));
    k :| IsFirstFree(headers[j], k, Names(out[..j])) && out[j] == Suffixed(headers[j], k);
  }

  lemma KeepsIfFree(headers: seq<string>, out: seq<string>, n: nat)
    requires IsDeduped(headers, out) && n < |headers| && CountsOk(headers, Names(out[..n]), n)
    ensures Keeps(headers, n) <==> headers[n] !in Names(out[..n])
  {
    hide Suffixed, Renamed;
    var h, used := headers[n], Names(out[..n]);
    if h !in used {
      forall j | 0 <= j < n ensures headers[j] != h { HeadersAreUsed(headers, out, n, j); }
      forall m, k: nat | k >= 1 && h == Suffixed(m, k)
        ensures Repetitions(headers, n, m) + KeptBelow(headers, n, m, k) < k
      {
        assert CountOk(headers, used, n, m, k);
        UsedBelowBound(used, m, k);
      }
    } else if h !in headers[..n] {
      var j, k := UsedByRepetition(headers, out, n, h);
      assert CountOk(headers, used, n, headers[j], k);
    }
  }

  lemma CountKept(headers: seq<string>, used: set<string>, n: nat, m: string, k: nat)
    requires n < |headers| && k >= 1 && CountOk(headers, used, n, m, k)
    requires Keeps(headers, n) && headers[n] !in used
    ensures CountOk(headers, used + {headers[n]}, n + 1, m, k)
  {
    hide Suffixed, Keeps, Tried;
    UsedBelowGrows(used, headers[n], m, k);
    assert headers[..n + 1] == headers[..n] + [headers[n]];
  }

  lemma FirstFreeIsLeast(name: string, f: nat, used: set<string>, k: nat)
    requires IsFirstFree(name, f, used) && k >= 1
    ensures f <= k || Suffixed(name, k) in used
  {
    if k < f { assert Suffixed(name, k) in Tried(name, f - 1); }
  }

  lemma CountRenamed(headers: seq<string>, used: set<string>, n: nat, f: nat, m: string, k: nat)
    requires n < |headers| && k >= 1 && CountOk(headers, used, n, m, k)
    requires !Keeps(headers, n) && IsFirstFree(headers[n], f, used)
    ensures CountOk(headers, used + {Suffixed(headers[n], f)}, n + 1, m, k)
  {
    hide Suffixed, Keeps;
    var h, o, x := headers[n], Suffixed(headers[n], f), Suffixed(m, k);
    UsedBelowGrows(used, o, m, k);
    assert headers[..n + 1] == headers[..n] + [h];
    if o in Tried(m, k - 1) {
      var j: nat :| 1 <= j <= k - 1 && o == Suffixed(m, j);
      SuffixedUnique(h, f, m, j);
    }
    FirstFreeIsLeast(h, f, used, k);
    if x == o {
      SuffixedUnique(m, k, h, f);
      UsedBelowBound(used, m, k);
    }
  }

  lemma {:induction false} CountsHold(headers: seq<string>, out: seq<string>, n: nat)
    requires IsDeduped(headers, out) && n <= |headers|
    ensures CountsOk(headers, Names(out[..n]), n)
  {
    hide Suffixed, Keeps, CountOk;
    if n == 0 {
      NoCounts(headers);
      assert Names(out[..0]) == {};
    } else {
      CountsHold(headers, out, n - 1);
      KeepsIfFree(headers, out, n - 1);
      var h, used := headers[n - 1], Names(out[..n - 1]);
      assert Renamed(h, out[n - 1], used);
      assert Names(out[..n]) == used + {out[n - 1]} by { assert out[..n] == out[..n - 1] + [out[n - 1]]; }
      if h !in used {
        forall m, k: nat | k >= 1 ensures CountOk(headers, used + {h}, n, m, k) {
          CountKept(headers, used, n - 1, m, k);
        }
      } else {
        var f: nat :| IsFirstFree(h, f, used) && out[n - 1] == Suffixed(h, f);
        forall m, k: nat | k >= 1 ensures CountOk(headers, used + {Suffixed(h, f)}, n, m, k) {
          CountRenamed(headers, used, n - 1, f, m, k);
        }
      }
    }
  }

  lemma NoCounts(headers: seq<string>)
    ensures CountsOk(headers, {}, 0)
  {
    forall m, k: nat | k >= 1 ensures UsedBelow({}, m, k) == 0 { NothingUsed(m, k); }
  }

  lemma {:induction false} NothingUsed(m: string, k: nat)
    ensures UsedBelow({}, m, k) == 0
  {
    if k > 1 { NothingUsed(m, k - 1); }
  }

  /** Which headers keep their names, in terms of the headers before them. */
  lemma KeptExactly(headers: seq<string>, out: seq<string>, i: nat)
    requires IsDeduped(headers, out) && i < |headers|
    ensures out[i] == headers[i] <==> Keeps(headers, i)
  {
    hide Keeps, CountsOk;
    CountsHold(headers, out, i);
    KeepsIfFree(headers, out, i);
    assert Renamed(headers[i], out[i], Names(out[..i]));
  }

  /** A first occurrence that is no suffixed form of an earlier header keeps its name. */
  lemma FirstIsKept(headers: seq<string>, out: seq<string>, i: nat)
    requires IsDeduped(headers, out) && i < |headers| && headers[i] !in headers[..i]
    requires forall j: nat, k: nat :: j < i && k >= 1 ==> headers[i] != Suffixed(headers[j], k)
    ensures out[i] == headers[i]
  {
    hide Suffixed;
    assert Renamed(headers[i], out[i], Names(out[..i]));
    if headers[i] in Names(out[..i]) {
      var j, k := UsedByRepetition(headers, out, i, headers[i]);
    }
  }

  /** A header that comes first after a repetition has taken its name is renamed. */
  lemma TakenByRepetition()
    ensures IsDeduped(["a", "a", "a (1)"], ["a", "a (1)", "a (1) (1)"])
    ensures !Keeps(["a", "a", "a (1)"], 2)
  {
    var headers, out := ["a", "a", "a (1)"], ["a", "a (1)", "a (1) (1)"];
    assert Decimal(1) == "1";
    assert Suffixed("a", 1) == "a (1)" && Suffixed("a (1)", 1) == "a (1) (1)";
    assert out[..1] == ["a"] && out[..2] == ["a", "a (1)"];
    assert "a"[..] != "a (1)"[..];
    assert IsFirstFree("a", 1, Names(out[..1]));
    assert IsFirstFree("a (1)", 1, Names(out[..2]));
    assert IsDeduped(headers, out);
    hide Keeps, IsDeduped;
    KeptExactly(headers, out, 2);
  }
}
