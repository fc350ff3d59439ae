/** Segment file names carry the first sequence number in at least 19 digits, and are sorted as strings. */
module WalNames {
  import Bytes

  function Pow10(w: nat): (p: nat)
    ensures p > 0
  {
    if w == 0 then 1 else 10 * Pow10(w - 1)
  }

  function Digits(n: nat, w: nat): (s: seq<nat>)
    ensures |s| == w
  {
    if w == 0 then [] else Digits(n / 10, w - 1) + [n % 10]
  }

  function Width(n: nat): nat {
    if n < Pow10(19) then 19 else 1 + Width(n / 10)
  }

  /** The digits of the name of the segment that starts at `n`. */
  function Name(n: nat): seq<nat> {
    Digits(n, Width(n))
  }

  predicate DiffersAt(s: seq<nat>, t: seq<nat>, i: nat) {
    i <= |s| && i < |t| && s[..i] == t[..i] && (i == |s| || s[i] < t[i])
  }

  /** String order. */
  ghost predicate SortsBefore(s: seq<nat>, t: seq<nat>) {
    exists i: nat :: DiffersAt(s, t, i)
  }

  lemma {:induction false} DigitsOrder(a: nat, b: nat, w: nat)
    requires a < b < Pow10(w)
    ensures SortsBefore(Digits(a, w), Digits(b, w))
    decreases w
  {
    var s, t := Digits(a, w), Digits(b, w);
    var s1, t1 := Digits(a / 10, w - 1), Digits(b / 10, w - 1);
    assert s[..w - 1] == s1 && t[..w - 1] == t1;
    if a / 10 < b / 10 {
      DigitsOrder(a / 10, b / 10, w - 1);
      var i: nat :| DiffersAt(s1, t1, i);
      assert s[..i] == s1[..i] && t[..i] == t1[..i];
      assert DiffersAt(s, t, i);
    } else {
      assert DiffersAt(s, t, w - 1);
    }
  }

  lemma NotBoth(s: seq<nat>, t: seq<nat>, i: nat, j: nat)
    requires DiffersAt(s, t, i)
    ensures !DiffersAt(t, s, j)
  {
    if i < j && j <= |t| && j <= |s| {
      assert s[..j][i] == s[i] && t[..j][i] == t[i];
    }
    if j < i && j < |t| {
      assert s[..i][j] == s[j] && t[..i][j] == t[j];
    }
  }

  lemma OrderIsStrict(s: seq<nat>, t: seq<nat>)
    ensures SortsBefore(s, t) ==> !SortsBefore(t, s)
  {
    if SortsBefore(s, t) {
      var i: nat :| DiffersAt(s, t, i);
      forall j: nat
        ensures !DiffersAt(t, s, j)
      {
        NotBoth(s, t, i, j);
      }
    }
  }

  /** Below 10^19, sorting the names sorts the numbers. */
  lemma NamesSortAsNumbers(a: nat, b: nat)
    requires a < Pow10(19) && b < Pow10(19)
    ensures SortsBefore(Name(a), Name(b)) <==> a < b
  {
    if a < b {
      DigitsOrder(a, b, 19);
    } else if b < a {
      DigitsOrder(b, a, 19);
      OrderIsStrict(Name(b), Name(a));
    } else {
      OrderIsStrict(Name(a), Name(b));
    }
  }

  // ----- names of more digits -----

  lemma {:induction false} WidthFits(n: nat)
    ensures n < Pow10(Width(n)) && Width(n) >= 19
  {
    if n >= Pow10(19) {
      WidthFits(n / 10);
      assert Pow10(Width(n)) == 10 * Pow10(Width(n / 10));
    }
  }

  lemma {:induction false} WidthRises(a: nat, b: nat)
    requires a <= b
    ensures Width(a) <= Width(b)
  {
    if a >= Pow10(19) {
      WidthRises(a / 10, b / 10);
    } else {
      WidthFits(b);
    }
  }

  /** Different numbers have different names. */
  lemma NamesDiffer(a: nat, b: nat)
    requires a < b
    ensures Name(a) != Name(b)
  {
    WidthRises(a, b);
    WidthFits(a);
    WidthFits(b);
    if Width(a) == Width(b) {
      DigitsOrder(a, b, Width(a));
      OrderIsStrict(Name(a), Name(b));
    }
  }

  /** Below 10^20, where every 64-bit number lies, two names sort as their numbers but for one case: the smaller has
      19 digits, the larger 20, and the first 19 of those spell less than the smaller. */
  lemma NamesSortIff(a: nat, b: nat)
    requires a < b < Pow10(20)
    ensures SortsBefore(Name(a), Name(b)) <==> !(a < Pow10(19) <= b && b / 10 < a)
  {
    hide Pow10, Digits;
    Powers();
    if b < Pow10(19) {
      NamesSortAsNumbers(a, b);
    } else if a >= Pow10(19) {
      LongName(a);
      LongName(b);
      DigitsOrder(a, b, 20);
    } else {
      LongName(b);
      ShortName(a);
      LongBesideShort(a, b);
    }
  }

  lemma Powers()
    ensures Pow10(20) == 10 * Pow10(19)
  {
  }

  lemma ShortName(n: nat)
    requires n < Pow10(19)
    ensures Name(n) == Digits(n, 19)
  {
  }

  lemma LongName(n: nat)
    requires Pow10(19) <= n < Pow10(20)
    ensures Name(n) == Digits(n, 20) == Digits(n / 10, 19) + [n % 10] && n / 10 < Pow10(19)
  {
    assert n / 10 < Pow10(19);
    assert Width(n) == 1 + Width(n / 10) == 20;
  }

  lemma LongBesideShort(a: nat, b: nat)
    requires a < Pow10(19) && b / 10 < Pow10(19)
    ensures SortsBefore(Digits(a, 19), Digits(b / 10, 19) + [b % 10]) <==> a <= b / 10
  {
    hide Pow10, Digits;
    var s, t, long := Digits(a, 19), Digits(b / 10, 19), Digits(b / 10, 19) + [b % 10];
    assert long[..19] == t;
    if a < b / 10 {
      DigitsOrder(a, b / 10, 19);
      var i: nat :| DiffersAt(s, t, i);
      assert long[..i] == t[..i];
      assert DiffersAt(s, long, i);
    } else if a == b / 10 {
      assert s[..19] == s;
      assert DiffersAt(s, long, 19);
    } else {
      DigitsOrder(b / 10, a, 19);
      var i: nat :| DiffersAt(t, s, i);
      assert long[..i] == t[..i];
      assert DiffersAt(long, s, i);
      OrderIsStrict(long, s);
    }
  }

  lemma {:induction false} FirstDigit(n: nat, w: nat)
    requires 0 < w && n < Pow10(w)
    ensures Digits(n, w)[0] == n / Pow10(w - 1)
  {
    if w > 1 {
      FirstDigit(n / 10, w - 1);
      NestedQuotient(n, Pow10(w - 2));
    }
  }

  lemma NestedQuotient(n: nat, p: nat)
    requires p > 0
    ensures n / 10 / p == n / (10 * p)
  {
    var q := n / 10 / p;
    assert q * p <= n / 10 < q * p + p;
    assert q * (10 * p) == 10 * (q * p);
    assert (q * (10 * p)) <= n < q * (10 * p) + 10 * p;
    Bytes.QuotientUnique(10 * p, n, q);
  }

  /** At 10^19 the order breaks: a 20-digit name sorts before shorter, smaller ones. */
  lemma NamesBeyondNineteenDigits()
    ensures SortsBefore(Name(Pow10(19)), Name(2 * Pow10(18)))
  {
    var a, b := Pow10(19), 2 * Pow10(18);
    assert a == 10 * Pow10(18);
    assert a / 10 == Pow10(18) < Pow10(19);
    assert Width(a) == 20 && Width(b) == 19;
    FirstDigit(a, 20);
    FirstDigit(b, 19);
    Bytes.QuotientUnique(Pow10(19), a, 1);
    Bytes.QuotientUnique(Pow10(18), b, 2);
    assert DiffersAt(Name(a), Name(b), 0);
  }

  // ----- sorting names -----

  /** String order, one character at a time. */
  predicate Before(s: seq<nat>, t: seq<nat>) {
    t != [] && (s == [] || s[0] < t[0] || (s[0] == t[0] && Before(s[1..], t[1..])))
  }

  lemma {:induction false} BeforeIs(s: seq<nat>, t: seq<nat>)
    ensures Before(s, t) <==> SortsBefore(s, t)
    decreases |s|
  {
    if s != [] && t != [] && s[0] == t[0] {
      BeforeIs(s[1..], t[1..]);
      if Before(s, t) {
        var i: nat :| DiffersAt(s[1..], t[1..], i);
        assert s[..i + 1] == [s[0]] + s[1..][..i] && t[..i + 1] == [t[0]] + t[1..][..i];
        assert DiffersAt(s, t, i + 1);
      }
      if SortsBefore(s, t) {
        var i: nat :| DiffersAt(s, t, i);
        assert s[1..][..i - 1] == s[..i][1..] && t[1..][..i - 1] == t[..i][1..];
        assert DiffersAt(s[1..], t[1..], i - 1);
      }
    } else {
      if Before(s, t) {
        assert DiffersAt(s, t, 0);
      }
      if SortsBefore(s, t) {
        var i: nat :| DiffersAt(s, t, i);
        FirstDecides(s, t, i);
      }
    }
  }

  lemma FirstDecides(s: seq<nat>, t: seq<nat>, i: nat)
    requires DiffersAt(s, t, i)
    ensures i == 0 || (s != [] && t != [] && s[0] == t[0])
  {
    if i > 0 {
      assert s[..i][0] == s[0] && t[..i][0] == t[0];
    }
  }

  lemma {:induction false} BeforeTotal(s: seq<nat>, t: seq<nat>)
    ensures Before(s, t) || Before(t, s) || s == t
    decreases |s|
  {
    if s != [] && t != [] && s[0] == t[0] {
      BeforeTotal(s[1..], t[1..]);
      assert s == [s[0]] + s[1..] && t == [t[0]] + t[1..];
    }
  }

  lemma {:induction false} BeforeChains(s: seq<nat>, t: seq<nat>, u: seq<nat>)
    requires Before(s, t) && Before(t, u)
    ensures Before(s, u)
    decreases |s|
  {
    if s != [] && s[0] == t[0] == u[0] {
      BeforeChains(s[1..], t[1..], u[1..]);
    }
  }

  /** The file a sorted directory listing has first. */
  method FirstByName(names: set<nat>) returns (n: nat)
    requires names != {}
    ensures n in names && forall k | k in names && k != n :: SortsBefore(Name(n), Name(k))
  {
    hide Before, SortsBefore, Name;
    n :| n in names;
    var todo := names - {n};
    while todo != {}
      invariant todo <= names && n in names && n !in todo
      invariant forall k | k in names && k !in todo && k != n :: Before(Name(n), Name(k))
      decreases |todo|
    {
      var k :| k in todo;
      todo := todo - {k};
      NamesDiffer(if n < k then n else k, if n < k then k else n);
      BeforeTotal(Name(n), Name(k));
      if Before(Name(k), Name(n)) {
        forall j | j in names && j !in todo && j != k
          ensures Before(Name(k), Name(j))
        {
          if j != n {
            BeforeChains(Name(k), Name(n), Name(j));
          }
        }
        n := k;
      }
    }
    forall k | k in names && k != n
      ensures SortsBefore(Name(n), Name(k))
    {
      BeforeIs(Name(n), Name(k));
    }
  }

  /** `order` is the names of a directory as a listing sorts them. */
  ghost predicate Listing(order: seq<nat>, names: set<nat>) {
    && (forall n :: n in order <==> n in names)
    && forall i, j | 0 <= i < j < |order| :: SortsBefore(Name(order[i]), Name(order[j]))
  }

  /** A directory has one listing. */
  lemma {:induction false} OneListing(a: seq<nat>, b: seq<nat>, names: set<nat>)
    requires Listing(a, names) && Listing(b, names)
    ensures a == b
    decreases |a|
  {
    hide SortsBefore, Name;
    EmptyListing(a, names);
    EmptyListing(b, names);
    if a != [] {
      assert a[0] in a;
      var j :| 0 <= j < |b| && b[j] == a[0];
      assert b[0] in b;
      var k :| 0 <= k < |a| && a[k] == b[0];
      OrderIsStrict(Name(a[0]), Name(b[0]));
      assert a[0] == b[0];
      RestListed(a, names);
      RestListed(b, names);
      OneListing(a[1..], b[1..], names - {a[0]});
      assert a == [a[0]] + a[1..] && b == [b[0]] + b[1..];
    }
  }

  lemma EmptyListing(a: seq<nat>, names: set<nat>)
    requires Listing(a, names)
    ensures a == [] <==> names == {}
  {
    hide SortsBefore, Name;
    if a != [] {
      assert a[0] in names;
    }
  }

  lemma RestListed(a: seq<nat>, names: set<nat>)
    requires a != [] && Listing(a, names)
    ensures Listing(a[1..], names - {a[0]})
  {
    hide SortsBefore, Name;
    forall n
      ensures n in a[1..] <==> n in names - {a[0]}
    {
      if n in a[1..] {
        var i :| 0 <= i < |a| - 1 && a[1..][i] == n;
        assert a[i + 1] == n && SortsBefore(Name(a[0]), Name(a[i + 1]));
        OrderIsStrict(Name(a[0]), Name(n));
      }
      assert a == [a[0]] + a[1..];
    }
  }
}
