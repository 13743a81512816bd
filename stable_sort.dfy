/** A stable ascending sort by a key, as Python's `sorted(xs, key=f)` performs it.
    Python compares keys with `<` only; two keys are tied when neither is below the other.
    The sort below is an insertion sort, but the uniqueness lemma shows that every stable
    sort by the same key gives the same sequence, so the algorithm does not matter. */
module StableSort {

  /** A sort key: a number (what `float()` produced) or a raw string.
      One table never mixes the two; the order between them is fixed only to make `KeyLt` total. */
  datatype Key = Num(x: real) | Str(s: string)

  /** Python's `<` on `str`: lexicographic by code point, a proper prefix is smaller. */
  predicate StrLt(a: string, b: string)
  {
    if b == [] then false
    else if a == [] then true
    else if a[0] != b[0] then a[0] < b[0]
    else StrLt(a[1..], b[1..])
  }

  /** Python's `<` on the keys of one table. */
  predicate KeyLt(a: Key, b: Key)
  {
    match (a, b)
    case (Num(x), Num(y)) => x < y
    case (Str(s), Str(t)) => StrLt(s, t)
    case (Num(_), Str(_)) => true
    case (Str(_), Num(_)) => false
  }

  lemma {:induction false} StrLtIrreflexive(a: string)
    ensures !StrLt(a, a)
  {
    if a != [] {
      StrLtIrreflexive(a[1..]);
    }
  }

  lemma {:induction false} StrLtTransitive(a: string, b: string, c: string)
    requires StrLt(a, b) && StrLt(b, c)
    ensures StrLt(a, c)
  {
    if a != [] && a[0] == b[0] && b[0] == c[0] {
      StrLtTransitive(a[1..], b[1..], c[1..]);
    }
  }

  lemma {:induction false} StrLtTrichotomous(a: string, b: string)
    ensures StrLt(a, b) || a == b || StrLt(b, a)
  {
    if a != [] && b != [] && a[0] == b[0] {
      StrLtTrichotomous(a[1..], b[1..]);
      if a[1..] == b[1..] {
        assert a == [a[0]] + a[1..] && b == [b[0]] + b[1..];
      }
    }
  }

  lemma KeyLtIrreflexive(a: Key)
    ensures !KeyLt(a, a)
  {
    if a.Str? { StrLtIrreflexive(a.s); }
  }

  /** `KeyLt` is a strict total order: irreflexive, transitive and trichotomous. */
  lemma KeyLtStrictTotal()
    ensures forall a: Key :: !KeyLt(a, a)
    ensures forall a: Key, b: Key, c: Key :: KeyLt(a, b) && KeyLt(b, c) ==> KeyLt(a, c)
    ensures forall a: Key, b: Key :: KeyLt(a, b) || a == b || KeyLt(b, a)
  {
    forall a: Key ensures !KeyLt(a, a) {
      if a.Str? { StrLtIrreflexive(a.s); }
    }
    forall a: Key, b: Key, c: Key | KeyLt(a, b) && KeyLt(b, c) ensures KeyLt(a, c) {
      if a.Str? && b.Str? && c.Str? { StrLtTransitive(a.s, b.s, c.s); }
    }
    forall a: Key, b: Key ensures KeyLt(a, b) || a == b || KeyLt(b, a) {
      if a.Str? && b.Str? { StrLtTrichotomous(a.s, b.s); }
    }
  }

  /** `s` is non-decreasing by `key`: no later element has a key below an earlier one. */
  predicate Sorted<V>(s: seq<V>, key: V -> Key)
  {
    forall i, j :: 0 <= i < j < |s| ==> !KeyLt(key(s[j]), key(s[i]))
  }

  /** The elements of `s` whose key is `k`, in their order in `s`. */
  function WithKey<V>(s: seq<V>, key: V -> Key, k: Key): seq<V>
  {
    if s == [] then []
    else (if key(s[0]) == k then [s[0]] else []) + WithKey(s[1..], key, k)
  }

  /** `t` orders the elements of `s` stably: elements with equal keys keep their relative order. */
  ghost predicate StableFor<V>(t: seq<V>, s: seq<V>, key: V -> Key)
  {
    forall k :: WithKey(t, key, k) == WithKey(s, key, k)
  }

  /** Inserts `x` before the first element whose key is not below the key of `x`. */
  function Insert<V>(x: V, s: seq<V>, key: V -> Key): seq<V>
  {
    if s == [] then [x]
    else if KeyLt(key(s[0]), key(x)) then [s[0]] + Insert(x, s[1..], key)
    else [x] + s
  }

  /** The stable ascending sort of `s` by `key`. */
  function SortBy<V>(s: seq<V>, key: V -> Key): seq<V>
  {
    if s == [] then [] else Insert(s[0], SortBy(s[1..], key), key)
  }

  lemma {:induction false} InsertPermutation<V>(x: V, s: seq<V>, key: V -> Key)
    ensures multiset(Insert(x, s, key)) == multiset(s) + multiset{x}
  {
    if s != [] && KeyLt(key(s[0]), key(x)) {
      InsertPermutation(x, s[1..], key);
      assert s == [s[0]] + s[1..];
    }
  }

  /** The sorted sequence holds exactly the input elements, each as often as before. */
  lemma {:induction false} SortByPermutation<V>(s: seq<V>, key: V -> Key)
    ensures multiset(SortBy(s, key)) == multiset(s)
  {
    if s != [] {
      SortByPermutation(s[1..], key);
      InsertPermutation(s[0], SortBy(s[1..], key), key);
      assert s == [s[0]] + s[1..];
    }
  }

  lemma {:induction false} InsertSorted<V>(x: V, s: seq<V>, key: V -> Key)
    requires Sorted(s, key)
    ensures Sorted(Insert(x, s, key), key)
  {
    KeyLtStrictTotal();
    if s != [] && KeyLt(key(s[0]), key(x)) {
      InsertSorted(x, s[1..], key);
      InsertPermutation(x, s[1..], key);
      var r := Insert(x, s, key);
      forall j | 1 <= j < |r| ensures !KeyLt(key(r[j]), key(s[0])) {
        assert r[j] in multiset(Insert(x, s[1..], key));
        assert r[j] in multiset(s[1..]) + multiset{x};
        if r[j] != x {
          var m :| 0 <= m < |s[1..]| && s[1..][m] == r[j];
          assert s[m + 1] == r[j];
        }
      }
    }
  }

  /** The result is non-decreasing by the key. */
  lemma {:induction false} SortBySorted<V>(s: seq<V>, key: V -> Key)
    ensures Sorted(SortBy(s, key), key)
  {
    if s != [] {
      SortBySorted(s[1..], key);
      InsertSorted(s[0], SortBy(s[1..], key), key);
    }
  }

  lemma {:induction false} WithKeyAppend<V>(a: seq<V>, b: seq<V>, key: V -> Key, k: Key)
    ensures WithKey(a + b, key, k) == WithKey(a, key, k) + WithKey(b, key, k)
  {
    if a != [] {
      assert (a + b)[0] == a[0];
      assert (a + b)[1..] == a[1..] + b;
      WithKeyAppend(a[1..], b, key, k);
    } else {
      assert a + b == b;
    }
  }

  lemma {:induction false} InsertWithKey<V>(x: V, s: seq<V>, key: V -> Key, k: Key)
    ensures WithKey(Insert(x, s, key), key, k) ==
            (if key(x) == k then [x] else []) + WithKey(s, key, k)
  {
    if s != [] && KeyLt(key(s[0]), key(x)) {
      var y := s[0];
      KeyLtIrreflexive(key(x));
      assert key(y) != key(x);
      InsertWithKey(x, s[1..], key, k);
      assert Insert(x, s, key) == [y] + Insert(x, s[1..], key);
      WithKeyCons(y, Insert(x, s[1..], key), key, k);
      WithKeyCons(y, s[1..], key, k);
      assert s == [y] + s[1..];
    } else if s != [] {
      assert Insert(x, s, key) == [x] + s;
      WithKeyCons(x, s, key, k);
    }
  }

  lemma WithKeyCons<V>(x: V, s: seq<V>, key: V -> Key, k: Key)
    ensures WithKey([x] + s, key, k) == (if key(x) == k then [x] else []) + WithKey(s, key, k)
  {
  }

  /** Elements with equal keys appear in the same relative order as in the input. */
  lemma {:induction false} SortByStable<V>(s: seq<V>, key: V -> Key)
    ensures StableFor(SortBy(s, key), s, key)
  {
    forall k ensures WithKey(SortBy(s, key), key, k) == WithKey(s, key, k) {
      SortByStableAt(s, key, k);
    }
  }

  lemma {:induction false} SortByStableAt<V>(s: seq<V>, key: V -> Key, k: Key)
    ensures WithKey(SortBy(s, key), key, k) == WithKey(s, key, k)
  {
    if s != [] {
      SortByStableAt(s[1..], key, k);
      InsertWithKey(s[0], SortBy(s[1..], key), key, k);
    }
  }

  lemma {:induction false} WithKeyMember<V>(s: seq<V>, key: V -> Key, k: Key, x: V)
    requires x in WithKey(s, key, k)
    ensures x in s && key(x) == k
  {
    if s != [] && !(key(s[0]) == k && x == s[0]) {
      WithKeyMember(s[1..], key, k, x);
    }
  }

  /** Two sorted sequences that agree on the elements of every key are equal. */
  lemma {:induction false} SortedAgreeingEqual<V>(a: seq<V>, b: seq<V>, key: V -> Key)
    requires Sorted(a, key) && Sorted(b, key)
    requires StableFor(a, b, key)
    ensures a == b
  {
    if a == [] || b == [] {
      if a != [] || b != [] {
        var c := if a == [] then b else a;
        var first := WithKey(c, key, key(c[0]));
        assert false;
      }
    } else {
      KeyLtStrictTotal();
      var ka, kb := key(a[0]), key(b[0]);
      if KeyLt(ka, kb) {
        assert a[0] in WithKey(b, key, ka);
        WithKeyMember(b, key, ka, a[0]);
        assert false;
      } else if KeyLt(kb, ka) {
        assert b[0] in WithKey(a, key, kb);
        WithKeyMember(a, key, kb, b[0]);
        assert false;
      }
      assert ka == kb;
      assert WithKey(a, key, ka) == [a[0]] + WithKey(a[1..], key, ka);
      assert WithKey(b, key, ka) == [b[0]] + WithKey(b[1..], key, ka);
      assert WithKey(a, key, ka)[0] == a[0] && WithKey(b, key, ka)[0] == b[0];
      assert a[0] == b[0];
      forall k ensures WithKey(a[1..], key, k) == WithKey(b[1..], key, k) {
        if k == ka {
          assert WithKey(a, key, k)[1..] == WithKey(a[1..], key, k);
        } else {
          assert WithKey(a, key, k) == WithKey(a[1..], key, k);
          assert WithKey(b, key, k) == WithKey(b[1..], key, k);
        }
      }
      SortedAgreeingEqual(a[1..], b[1..], key);
      assert a == [a[0]] + a[1..] && b == [b[0]] + b[1..];
    }
  }

  /** `SortBy` is THE stable sort: any sorted, stable rearrangement of `s` is `SortBy(s, key)`. */
  lemma SortByUnique<V>(s: seq<V>, t: seq<V>, key: V -> Key)
    requires Sorted(t, key) && StableFor(t, s, key)
    ensures t == SortBy(s, key)
  {
    SortBySorted(s, key);
    SortByStable(s, key);
    SortedAgreeingEqual(t, SortBy(s, key), key);
  }

  /** Sorting a sorted sequence changes nothing; in particular sorting twice is sorting once. */
  lemma SortBySortedInput<V>(s: seq<V>, key: V -> Key)
    requires Sorted(s, key)
    ensures SortBy(s, key) == s
  {
    SortByUnique(s, s, key);
  }

  lemma SortByIdempotent<V>(s: seq<V>, key: V -> Key)
    ensures SortBy(SortBy(s, key), key) == SortBy(s, key)
  {
    SortBySorted(s, key);
    SortBySortedInput(SortBy(s, key), key);
  }
}
