/** The metadata cache as a list of items, most recently used first. */
module LruModel {

  datatype Item<K, V> = Item(key: K, value: V, size: int)

  function Total<K, V>(list: seq<Item<K, V>>): int {
    if list == [] then 0 else Total(list[..|list| - 1]) + list[|list| - 1].size
  }

  lemma {:induction false} TotalOfConcat<K, V>(a: seq<Item<K, V>>, b: seq<Item<K, V>>)
    ensures Total(a + b) == Total(a) + Total(b)
  {
    if b == [] {
      assert a + b == a;
    } else {
      TotalOfConcat(a, b[..|b| - 1]);
      assert (a + b)[..|a + b| - 1] == a + b[..|b| - 1];
    }
  }

  lemma TotalOfOne<K, V>(x: Item<K, V>)
    ensures Total([x]) == x.size
  {
    assert [x][..0] == [];
  }

  /** A limit that is not positive does not apply. */
  predicate Over<K, V>(list: seq<Item<K, V>>, capacity: int, maxBytes: int) {
    (capacity > 0 && |list| > capacity) || (maxBytes > 0 && Total(list) > maxBytes && |list| > 0)
  }

  /** Evict from the old end until both limits hold. */
  function Trim<K, V>(list: seq<Item<K, V>>, capacity: int, maxBytes: int): seq<Item<K, V>> {
    if list != [] && Over(list, capacity, maxBytes) then Trim(list[..|list| - 1], capacity, maxBytes) else list
  }

  function IndexOf<K(==), V>(list: seq<Item<K, V>>, key: K): (i: nat)
    ensures i <= |list|
    ensures i < |list| ==> list[i].key == key
    ensures forall j | 0 <= j < i :: list[j].key != key
  {
    if list == [] || list[0].key == key then 0 else 1 + IndexOf(list[1..], key)
  }

  predicate Has<K(==), V>(list: seq<Item<K, V>>, key: K) {
    IndexOf(list, key) < |list|
  }

  function Drop<K, V>(list: seq<Item<K, V>>, i: nat): seq<Item<K, V>>
    requires i < |list|
  {
    list[..i] + list[i + 1..]
  }

  function Without<K(==), V>(list: seq<Item<K, V>>, key: K): seq<Item<K, V>> {
    if Has(list, key) then Drop(list, IndexOf(list, key)) else list
  }

  /** The list with `x` most recent, before anything is evicted. */
  function Fronted<K(==), V>(list: seq<Item<K, V>>, x: Item<K, V>): seq<Item<K, V>> {
    [x] + Without(list, x.key)
  }

  function Put<K(==), V>(list: seq<Item<K, V>>, x: Item<K, V>, capacity: int, maxBytes: int): seq<Item<K, V>> {
    Trim(Fronted(list, x), capacity, maxBytes)
  }

  /** The pairs handed to the eviction callback when `list` is cut to its first `n`: the oldest first. */
  function Callbacks<K, V>(list: seq<Item<K, V>>, n: nat): seq<(K, V)>
    requires n <= |list|
    decreases |list|
  {
    if n == |list| then [] else
    var last := list[|list| - 1];
    [(last.key, last.value)] + Callbacks(list[..|list| - 1], n)
  }

  // ----- what trimming keeps -----

  predicate NonNegative<K, V>(list: seq<Item<K, V>>) {
    forall i | 0 <= i < |list| :: list[i].size >= 0
  }

  lemma {:induction false} TotalGrows<K, V>(list: seq<Item<K, V>>, k: nat)
    requires k <= |list| && NonNegative(list)
    ensures 0 <= Total(list[..k]) <= Total(list)
    decreases |list|
  {
    if k < |list| {
      TotalGrows(list[..|list| - 1], k);
      assert list[..|list| - 1][..k] == list[..k];
    } else {
      assert list[..k] == list;
      if k > 0 {
        TotalGrows(list[..k - 1], k - 1);
        assert list[..k - 1][..k - 1] == list[..k - 1];
      }
    }
  }

  /** Trimming keeps the longest prefix within both limits; when no size is negative, the prefixes within the
      limits are exactly its own. */
  lemma {:induction false} TrimIsLongest<K, V>(list: seq<Item<K, V>>, capacity: int, maxBytes: int)
    ensures var kept := Trim(list, capacity, maxBytes);
            && kept <= list && (kept == [] || !Over(kept, capacity, maxBytes))
            && (forall k | |kept| < k <= |list| :: Over(list[..k], capacity, maxBytes))
            && (NonNegative(list) ==> forall k | 0 <= k <= |kept| :: !Over(list[..k], capacity, maxBytes))
    decreases |list|
  {
    if list != [] && Over(list, capacity, maxBytes) {
      var shorter := list[..|list| - 1];
      TrimIsLongest(shorter, capacity, maxBytes);
      assert list[..|list|] == list;
      assert forall k | 0 <= k < |list| :: shorter[..k] == list[..k];
    } else if NonNegative(list) {
      forall k | 0 <= k <= |list|
        ensures !Over(list[..k], capacity, maxBytes)
      {
        TotalGrows(list, k);
      }
    }
  }

  // ----- keys -----

  predicate Distinct<K(==), V>(list: seq<Item<K, V>>) {
    forall i, j | 0 <= i < j < |list| :: list[i].key != list[j].key
  }

  /** Fronting moves what was before the key one place on, and leaves the rest in place. */
  lemma FrontedAt<K, V>(list: seq<Item<K, V>>, x: Item<K, V>)
    ensures var f, i := Fronted(list, x), IndexOf(list, x.key);
            && |f| == (if i < |list| then |list| else |list| + 1)
            && f[0] == x
            && (forall j | 0 < j < |f| :: f[j] == list[if i < j then j else j - 1])
  {
  }

  /** A key is in the list at most once, before and after a Put, and a Put makes its own the most recent. */
  lemma FrontedIs<K, V>(list: seq<Item<K, V>>, x: Item<K, V>)
    requires Distinct(list)
    ensures Distinct(Fronted(list, x)) && Fronted(list, x)[0] == x
    ensures forall k | k != x.key :: Has(Fronted(list, x), k) <==> Has(list, k)
  {
    hide Fronted;
    FrontedAt(list, x);
    var i, f := IndexOf(list, x.key), Fronted(list, x);
    forall k | k != x.key
      ensures Has(f, k) <==> Has(list, k)
    {
      var a := IndexOf(list, k);
      if a < |list| {
        assert f[if i < a then a else a + 1] == list[a];
      }
    }
  }

  // ----- runs of Puts -----

  /** Every Put of a key is at least as large as the one before it. */
  predicate NoShrink<K(==), V>(list: seq<Item<K, V>>, x: Item<K, V>) {
    Has(list, x.key) ==> list[IndexOf(list, x.key)].size <= x.size
  }

  /** If nothing longer than `a` fits, trimming its extension trims `a`. */
  lemma {:induction false} TrimOfExtension<K, V>(a: seq<Item<K, V>>, b: seq<Item<K, V>>, capacity: int, maxBytes: int)
    requires a <= b && NonNegative(b)
    requires |a| < |b| ==> Over(b[..|a| + 1], capacity, maxBytes)
    ensures Trim(b, capacity, maxBytes) == Trim(a, capacity, maxBytes)
    decreases |b|
  {
    if |a| < |b| {
      TotalGrows(b, |a| + 1);
      var shorter := b[..|b| - 1];
      assert forall k | 0 <= k <= |shorter| :: shorter[..k] == b[..k];
      TrimOfExtension(a, shorter, capacity, maxBytes);
    } else {
      assert a == b;
    }
  }

  lemma TotalOfDrop<K, V>(list: seq<Item<K, V>>, i: nat)
    requires i < |list|
    ensures Total(Drop(list, i)) == Total(list) - list[i].size
  {
    hide Total;
    TotalOfConcat(list[..i], list[i + 1..]);
    TotalOfConcat(list[..i], [list[i]] + list[i + 1..]);
    TotalOfConcat([list[i]], list[i + 1..]);
    TotalOfOne(list[i]);
    assert list == list[..i] + ([list[i]] + list[i + 1..]);
  }

  lemma DropInConcat<K, V>(a: seq<Item<K, V>>, b: seq<Item<K, V>>, i: nat)
    requires i < |a| + |b|
    ensures Drop(a + b, i) == if i < |a| then Drop(a, i) + b else a + Drop(b, i - |a|)
  {
  }

  lemma {:induction false} IndexInConcat<K, V>(a: seq<Item<K, V>>, b: seq<Item<K, V>>, key: K)
    ensures IndexOf(a + b, key) == if Has(a, key) then IndexOf(a, key) else |a| + IndexOf(b, key)
    decreases |a|
  {
    if a == [] {
      assert a + b == b;
    } else if a[0].key != key {
      IndexInConcat(a[1..], b, key);
      assert (a + b)[1..] == a[1..] + b;
    }
  }

  lemma WithoutInConcat<K, V>(a: seq<Item<K, V>>, b: seq<Item<K, V>>, key: K)
    ensures Without(a + b, key) == if Has(a, key) then Without(a, key) + b else a + Without(b, key)
  {
    hide IndexOf, Drop;
    IndexInConcat(a, b, key);
    if Has(a + b, key) {
      DropInConcat(a, b, IndexOf(a + b, key));
    }
  }

  /** What the cache has evicted never matters again: putting into the trimmed list is trimming after putting
      into the whole list. */
  lemma PutAfterTrim<K, V>(list: seq<Item<K, V>>, x: Item<K, V>, capacity: int, maxBytes: int)
    requires NonNegative(list) && x.size >= 0 && NoShrink(list, x)
    ensures Put(Trim(list, capacity, maxBytes), x, capacity, maxBytes) == Put(list, x, capacity, maxBytes)
  {
    hide Trim, Over, NoShrink, Fronted;
    TrimIsLongest(list, capacity, maxBytes);
    var kept := Trim(list, capacity, maxBytes);
    var rest := list[|kept|..];
    assert list == kept + rest;
    if rest != [] {
      assert list[..|kept| + 1] == kept + [rest[0]];
    }
    PutSplit(kept, rest, x, capacity, maxBytes);
  }

  /** What follows the kept items when `x` is put in front of the whole list. */
  function More<K(==), V>(kept: seq<Item<K, V>>, rest: seq<Item<K, V>>, x: Item<K, V>): seq<Item<K, V>> {
    if Has(kept, x.key) then rest else Without(rest, x.key)
  }

  lemma FrontedSplit<K, V>(kept: seq<Item<K, V>>, rest: seq<Item<K, V>>, x: Item<K, V>)
    ensures Fronted(kept + rest, x) == Fronted(kept, x) + More(kept, rest, x)
  {
    hide IndexOf, Drop;
    WithoutInConcat(kept, rest, x.key);
    assert [x] + (Without(kept, x.key) + More(kept, rest, x)) == [x] + Without(kept, x.key) + More(kept, rest, x);
  }

  lemma MoreIs<K, V>(kept: seq<Item<K, V>>, rest: seq<Item<K, V>>, x: Item<K, V>)
    requires NonNegative(kept + rest) && NoShrink(kept + rest, x) && More(kept, rest, x) != []
    ensures rest != [] && NonNegative(rest)
    ensures var y := More(kept, rest, x)[0];
            if Has(kept, x.key) then y == rest[0] && kept[IndexOf(kept, x.key)].size <= x.size
            else y == rest[0] || (rest[0].size <= x.size && y.size >= 0)
  {
    IndexInConcat(kept, rest, x.key);
    assert forall i | 0 <= i < |rest| :: rest[i] == (kept + rest)[|kept| + i];
    if !Has(kept, x.key) {
      FirstLeft(rest, x.key);
    }
  }

  lemma PutSplit<K, V>(kept: seq<Item<K, V>>, rest: seq<Item<K, V>>, x: Item<K, V>, capacity: int, maxBytes: int)
    requires NonNegative(kept + rest) && x.size >= 0 && NoShrink(kept + rest, x)
    requires rest != [] ==> Over(kept + [rest[0]], capacity, maxBytes)
    ensures Trim(Fronted(kept, x), capacity, maxBytes) == Trim(Fronted(kept + rest, x), capacity, maxBytes)
  {
    hide Trim, Over, Has, NoShrink, More, Without;
    var a, more := Fronted(kept, x), More(kept, rest, x);
    FrontedSplit(kept, rest, x);
    if more != [] {
      MoreIs(kept, rest, x);
      ExtensionIsOver(kept, rest, x, more[0], capacity, maxBytes);
      assert (a + more)[..|a| + 1] == a + [more[0]];
    }
    WithoutNonNegative(kept + rest, x.key);
    TrimOfExtension(a, a + more, capacity, maxBytes);
  }

  lemma WithoutNonNegative<K, V>(list: seq<Item<K, V>>, key: K)
    requires NonNegative(list)
    ensures NonNegative(Without(list, key))
  {
    hide IndexOf;
  }

  /** The first item left when a key goes is the first there was, or the second when the first has the key. */
  lemma FirstLeft<K, V>(list: seq<Item<K, V>>, key: K)
    requires Without(list, key) != []
    ensures list != []
    ensures Without(list, key)[0] == if IndexOf(list, key) == 0 && |list| > 1 then list[1] else list[0]
  {
  }

  lemma ExtensionIsOver<K, V>(kept: seq<Item<K, V>>, rest: seq<Item<K, V>>, x: Item<K, V>, y: Item<K, V>, capacity: int,
                              maxBytes: int)
    requires x.size >= 0 && NonNegative(rest) && rest != [] && Over(kept + [rest[0]], capacity, maxBytes)
    requires if Has(kept, x.key) then y == rest[0] && kept[IndexOf(kept, x.key)].size <= x.size
             else y == rest[0] || (rest[0].size <= x.size && y.size >= 0)
    ensures Over([x] + Without(kept, x.key) + [y], capacity, maxBytes)
  {
    hide Total, IndexOf, Drop;
    TotalOfConcat(kept, [rest[0]]);
    TotalOfConcat([x] + Without(kept, x.key), [y]);
    TotalOfConcat([x], Without(kept, x.key));
    TotalOfOne(x);
    TotalOfOne(y);
    TotalOfOne(rest[0]);
    if Has(kept, x.key) {
      TotalOfDrop(kept, IndexOf(kept, x.key));
      DropShorter(kept, IndexOf(kept, x.key));
    }
  }

  lemma DropShorter<K, V>(list: seq<Item<K, V>>, i: nat)
    requires i < |list|
    ensures |Drop(list, i)| == |list| - 1
  {
  }

  /** The cache after some Puts, and the recency list of the same Puts with no limit at all. */
  function Cached<K(==), V>(puts: seq<Item<K, V>>, capacity: int, maxBytes: int): seq<Item<K, V>> {
    if puts == [] then [] else
    Put(Cached(puts[..|puts| - 1], capacity, maxBytes), puts[|puts| - 1], capacity, maxBytes)
  }

  function Recency<K(==), V>(puts: seq<Item<K, V>>): (r: seq<Item<K, V>>)
    ensures (forall i | 0 <= i < |puts| :: puts[i].size >= 0) ==> NonNegative(r)
  {
    if puts == [] then [] else Fronted(Recency(puts[..|puts| - 1]), puts[|puts| - 1])
  }

  ghost predicate Growing<K, V>(puts: seq<Item<K, V>>) {
    forall i | 0 <= i < |puts| :: puts[i].size >= 0 && NoShrink(Recency(puts[..i]), puts[i])
  }

  /** After any Puts whose items do not shrink, the cache holds exactly the longest prefix of their recency
      order that is within both limits. */
  lemma {:induction false} CacheIsTrimmedRecency<K, V>(puts: seq<Item<K, V>>, capacity: int, maxBytes: int)
    requires Growing(puts)
    ensures Cached(puts, capacity, maxBytes) == Trim(Recency(puts), capacity, maxBytes)
  {
    hide Trim, Fronted, NoShrink;
    if puts == [] {
      TrimIsLongest(Recency(puts), capacity, maxBytes);
    } else {
      var before, x := puts[..|puts| - 1], puts[|puts| - 1];
      assert forall i | 0 <= i < |before| :: before[..i] == puts[..i];
      CacheIsTrimmedRecency(before, capacity, maxBytes);
      PutAfterTrim(Recency(before), x, capacity, maxBytes);
    }
  }

  /** The recency order has every key that was put, once, the last put first. */
  lemma {:induction false} RecencyIs<K, V>(puts: seq<Item<K, V>>)
    ensures Distinct(Recency(puts)) && (puts != [] ==> Recency(puts) != [] && Recency(puts)[0] == puts[|puts| - 1])
    ensures forall k :: Has(Recency(puts), k) <==> exists i :: 0 <= i < |puts| && puts[i].key == k
  {
    hide Fronted, Has;
    if puts == [] {
      NothingHas<K, V>();
    } else {
      var n := |puts| - 1;
      var before, x := puts[..n], puts[n];
      RecencyIs(before);
      FrontedIs(Recency(before), x);
      FrontHas(Recency(before), x);
      forall k
        ensures Has(Recency(puts), k) <==> exists i :: 0 <= i < |puts| && puts[i].key == k
      {
        if i :| 0 <= i < |puts| && puts[i].key == k && i < n {
          assert before[i].key == k;
        }
        if Has(Recency(before), k) && k != x.key {
          var i :| 0 <= i < n && before[i].key == k;
          assert puts[i].key == k;
        }
      }
    }
  }

  lemma NothingHas<K, V>()
    ensures forall k: K :: !Has<K, V>([], k)
  {
  }

  lemma FrontHas<K, V>(list: seq<Item<K, V>>, x: Item<K, V>)
    ensures Fronted(list, x) != [] && Fronted(list, x)[0] == x && Has(Fronted(list, x), x.key)
  {
    assert Fronted(list, x)[0] == x;
  }

  /** After any Puts the cache is how their recency order starts, and within both limits. */
  lemma {:induction false} CacheIsPrefix<K, V>(puts: seq<Item<K, V>>, capacity: int, maxBytes: int)
    ensures var c := Cached(puts, capacity, maxBytes); c <= Recency(puts) && (c == [] || !Over(c, capacity, maxBytes))
  {
    hide Trim, Fronted, Over, More;
    if puts != [] {
      var before, x := puts[..|puts| - 1], puts[|puts| - 1];
      CacheIsPrefix(before, capacity, maxBytes);
      var c, all := Cached(before, capacity, maxBytes), Recency(before);
      assert all == c + all[|c|..];
      FrontedSplit(c, all[|c|..], x);
      TrimIsLongest(Fronted(c, x), capacity, maxBytes);
    }
  }

  /** What any Puts leave: a start of their recency order within both limits. With no negative size it is the longest
      such start if and only if everything put is cached, or the last thing evicted would not fit beside what is. */
  ghost predicate LeftBy<K, V>(c: seq<Item<K, V>>, puts: seq<Item<K, V>>, capacity: int, maxBytes: int) {
    var all := Recency(puts);
    && c <= all
    && (c == [] || !Over(c, capacity, maxBytes))
    && (NonNegative(puts) ==>
          (c == Trim(all, capacity, maxBytes) <==> c == all || Over(all[..|c| + 1], capacity, maxBytes)))
    && (Growing(puts) ==> c == Trim(all, capacity, maxBytes))
  }

  lemma CacheIsLongestIff<K, V>(puts: seq<Item<K, V>>, capacity: int, maxBytes: int)
    ensures LeftBy(Cached(puts, capacity, maxBytes), puts, capacity, maxBytes)
  {
    hide Trim, Cached, Recency, Over, Growing;
    var c, all := Cached(puts, capacity, maxBytes), Recency(puts);
    CacheIsPrefix(puts, capacity, maxBytes);
    if NonNegative(puts) {
      TrimIsLongest(all, capacity, maxBytes);
      assert all[..|c|] == c;
    }
    if Growing(puts) {
      CacheIsTrimmedRecency(puts, capacity, maxBytes);
    }
  }

  /** Where it is not: under ten bytes, an item of six evicts another of six, and shrinks to one; the other would fit
      again, but is gone. */
  lemma ShrinkLeavesRoom()
    ensures var puts := [Item(1, 0, 6), Item(2, 0, 6), Item(2, 0, 1)];
            && Cached(puts, 0, 10) == [Item(2, 0, 1)]
            && Trim(Recency(puts), 0, 10) == [Item(2, 0, 1), Item(1, 0, 6)]
  {
    hide Cached, Recency, Put, Fronted, Trim, Total;
    var a, b, c := Item(1, 0, 6), Item(2, 0, 6), Item(2, 0, 1);
    Pushed([], a, 0, 10);
    Pushed([a], b, 0, 10);
    Pushed([a, b], c, 0, 10);
    assert [] + [a] == [a] && [a] + [b] == [a, b] && [a, b] + [c] == [a, b, c];
    Nothing<int, int>(0, 10);
    Single(a, a);
    Single(b, c);
    Single(c, c);
    Pair(b, a, c);
    Pair(c, a, c);
    PutFits([], a);
    PutFits([b], c);
    PutEvicts(a, b);
    Single(a, b);
    assert Recency([a, b]) == [b, a] && Recency([a, b, c]) == [c, a];
    Fits([c, a]);
  }

  lemma Nothing<K, V>(capacity: int, maxBytes: int)
    ensures Cached<K, V>([], capacity, maxBytes) == [] && Recency<K, V>([]) == []
    ensures forall x: Item<K, V> :: Fronted([], x) == [x]
  {
  }

  lemma Pushed<K, V>(puts: seq<Item<K, V>>, x: Item<K, V>, capacity: int, maxBytes: int)
    ensures Cached(puts + [x], capacity, maxBytes) == Put(Cached(puts, capacity, maxBytes), x, capacity, maxBytes)
    ensures Recency(puts + [x]) == Fronted(Recency(puts), x)
  {
    hide Put, Fronted;
    assert (puts + [x])[..|puts|] == puts;
  }

  lemma Fits(list: seq<Item<int, int>>)
    requires Total(list) <= 10
    ensures Trim(list, 0, 10) == list
  {
  }

  lemma PutFits(list: seq<Item<int, int>>, x: Item<int, int>)
    requires Total(Fronted(list, x)) <= 10
    ensures Put(list, x, 0, 10) == Fronted(list, x)
  {
    hide Fronted, Total;
  }

  /** Two items too big together: the older goes. */
  lemma PutEvicts(a: Item<int, int>, b: Item<int, int>)
    requires a.key != b.key && a.size + b.size > 10 >= b.size
    ensures Put([a], b, 0, 10) == [b]
  {
    hide Fronted, Total;
    Single(a, b);
    Single(b, b);
    Pair(b, a, b);
    var two := [b, a];
    assert Fronted([a], b) == two && two[..|two| - 1] == [b];
    assert Trim(two, 0, 10) == Trim([b], 0, 10) == [b];
  }

  lemma Single(x: Item<int, int>, y: Item<int, int>)
    ensures Total([x]) == x.size && Fronted([x], y) == if x.key == y.key then [y] else [y, x]
  {
    assert [x][..0] == [] && [x][1..] == [];
    if x.key != y.key {
      assert IndexOf([x], y.key) == 1;
    }
  }

  lemma Pair(x: Item<int, int>, y: Item<int, int>, z: Item<int, int>)
    ensures Total([x, y]) == x.size + y.size && [x, y][..1] == [x]
    ensures z.key == x.key ==> Fronted([x, y], z) == [z, y]
  {
    Single(x, z);
    assert [x, y][..1] == [x] && [x, y][1..] == [y];
    if z.key == x.key {
      assert IndexOf([x, y], z.key) == 0;
    }
  }
}
