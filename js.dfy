/** The parts of JavaScript's runtime semantics that the story engine leans
    on: `null`/`undefined`, truthiness of strings, `Array.prototype.find` and
    `filter`, `String.prototype.includes`, and the order in which a plain
    object used as a dictionary lists its keys. */
module Js {

  /** A value that may be missing: `null` and `undefined` are both `None`. */
  datatype Option<+T> = None | Some(value: T)

  /** The outcome of code that may throw. */
  datatype Result<+T, +E> = Ok(value: T) | Err(error: E)

  /** A string-or-nullish value is truthy exactly when it is a non-empty string. */
  predicate Truthy(s: Option<string>)
  {
    s.Some? && s.value != ""
  }

  /** `a % n` on numbers, for a positive `n`: the remainder takes the sign of
      `a` (truncating division), unlike Dafny's Euclidean `%`. */
  function Rem(a: int, n: int): (r: int)
    requires n > 0
    ensures a >= 0 ==> r == a % n && 0 <= r < n
    ensures a < 0 ==> -n < r <= 0
    ensures 0 <= a < n ==> r == a
    ensures -n < a <= 0 ==> r == a
    // the sign is odd symmetric, and `r` is congruent to `a` modulo `n`
    ensures a < 0 ==> -r == (-a) % n
    ensures (a - r) % n == 0
  {
    var x := if a >= 0 then a else -a;
    var m := x % n;
    SmallRem(x, n);
    if a >= 0 then m else -m
  }

  /** Facts about the remainder of a non-negative `x`: its range, a small
      `x` is its own remainder, and `x` minus its remainder is a multiple of
      `n` in either sign. */
  lemma SmallRem(x: int, n: int)
    requires 0 <= x && n > 0
    ensures 0 <= x % n < n
    ensures x < n ==> x % n == x
    ensures (x - x % n) % n == 0 && (x % n - x) % n == 0
  {
    var q := x / n;
    assert x - x % n == q * n;
    MultipleRem(q, n);
  }

  /** A multiple of `n`, of either sign, leaves remainder `0`. */
  lemma MultipleRem(q: nat, n: int)
    requires n > 0
    ensures (q * n) % n == 0 && (-(q * n)) % n == 0
  {
    ModUnique(q * n, n, q, 0);
    var d: int := q;
    assert -(q * n) == (-d) * n + 0;
    ModUnique(-(q * n), n, -d, 0);
  }

  lemma MulNonNeg(a: int, b: int)
    requires a >= 0 && b >= 0
    ensures a * b >= 0
  {
  }

  /** Euclidean remainders are unique. */
  lemma ModUnique(y: int, n: int, d: int, r: int)
    requires n > 0 && 0 <= r < n && y == d * n + r
    ensures y % n == r
  {
    var k := d - y / n;
    assert k * n == y % n - r;
    if k >= 1 {
      MulNonNeg(k - 1, n);
    } else if k <= -1 {
      MulNonNeg(-k - 1, n);
    }
  }

  /** `s || null` */
  function OrNull(s: Option<string>): (r: Option<string>)
    ensures r.Some? <==> Truthy(s)
    ensures r.Some? ==> r == s
  {
    if Truthy(s) then s else None
  }

  // ---------------------------------------------------------------------
  // Arrays
  // ---------------------------------------------------------------------

  /** `x` is the element at the first index of `s` that satisfies `p`. */
  ghost predicate IsFirstMatch<T>(s: seq<T>, p: T -> bool, x: T)
  {
    exists i :: 0 <= i < |s| && s[i] == x && p(s[i]) && forall j :: 0 <= j < i ==> !p(s[j])
  }

  /** `s.find(p)`: the first element that satisfies `p`, `None` for `undefined`. */
  function Find<T>(s: seq<T>, p: T -> bool): (r: Option<T>)
    ensures r.None? <==> forall j :: 0 <= j < |s| ==> !p(s[j])
    ensures r.Some? ==> p(r.value) && IsFirstMatch(s, p, r.value)
  {
    if s == [] then None
    else if p(s[0]) then
      assert IsFirstMatch(s, p, s[0]) by {
        assert s[0] == s[0] && p(s[0]);
      }
      Some(s[0])
    else
      var t := Find(s[1..], p);
      assert forall j :: 1 <= j < |s| ==> s[j] == s[1..][j - 1];
      if t.Some? then
        FirstMatchShift(s, p, t.value);
        t
      else
        t
  }

  lemma FirstMatchShift<T>(s: seq<T>, p: T -> bool, x: T)
    requires s != [] && !p(s[0]) && IsFirstMatch(s[1..], p, x)
    ensures IsFirstMatch(s, p, x)
  {
    var i :| 0 <= i < |s[1..]| && s[1..][i] == x && p(s[1..][i]) && forall j :: 0 <= j < i ==> !p(s[1..][j]);
    assert s[i + 1] == x;
    forall j | 0 <= j < i + 1 ensures !p(s[j]) {
      if j > 0 {
        assert s[j] == s[1..][j - 1];
      }
    }
  }

  /** When `s[j]` is the only element that satisfies `p`, `find` returns it. */
  lemma FindUnique<T>(s: seq<T>, p: T -> bool, j: nat)
    requires j < |s| && p(s[j])
    requires forall m :: 0 <= m < |s| && p(s[m]) ==> m == j
    ensures Find(s, p) == Some(s[j])
  {
  }

  /** Searching two sequences that agree pointwise on the predicate finds
      elements at the same index, which are related as the elements were. */
  lemma {:induction false} FindCorresponds<T, U>(s: seq<T>, p: T -> bool, t: seq<U>, q: U -> bool, rel: (T, U) -> bool)
    requires |s| == |t|
    requires forall i :: 0 <= i < |s| ==> p(s[i]) == q(t[i]) && rel(s[i], t[i])
    ensures Find(s, p).Some? <==> Find(t, q).Some?
    ensures Find(s, p).Some? ==> rel(Find(s, p).value, Find(t, q).value)
  {
    if s != [] {
      assert p(s[0]) == q(t[0]) && rel(s[0], t[0]);
      assert forall i :: 0 <= i < |s| - 1 ==> s[1..][i] == s[i + 1] && t[1..][i] == t[i + 1];
      FindCorresponds(s[1..], p, t[1..], q, rel);
    }
  }

  /** `s.filter(p)`: the elements that satisfy `p`, in their order in `s`. */
  function Filter<T>(s: seq<T>, p: T -> bool): (r: seq<T>)
    ensures |r| <= |s|
    ensures forall x :: x in r ==> p(x) && x in s
    ensures forall i :: 0 <= i < |s| && p(s[i]) ==> s[i] in r
  {
    if s == [] then [] else (if p(s[0]) then [s[0]] else []) + Filter(s[1..], p)
  }

  /** Filtering distributes over concatenation, so it keeps relative order. */
  lemma {:induction false} FilterAppend<T>(a: seq<T>, b: seq<T>, p: T -> bool)
    ensures Filter(a + b, p) == Filter(a, p) + Filter(b, p)
  {
    if a == [] {
      assert a + b == b;
    } else {
      assert (a + b)[0] == a[0];
      assert (a + b)[1..] == a[1..] + b;
      FilterAppend(a[1..], b, p);
    }
  }

  /** Looking for a `p` element among those that satisfy a weaker `q` finds
      the same element as looking in the whole sequence. */
  lemma {:induction false} FindInFilter<T>(s: seq<T>, q: T -> bool, p: T -> bool)
    requires forall x :: p(x) ==> q(x)
    ensures Find(Filter(s, q), p) == Find(s, p)
  {
    if s != [] {
      FindInFilter(s[1..], q, p);
      var f := Filter(s[1..], q);
      if q(s[0]) {
        assert Filter(s, q) == [s[0]] + f;
        assert ([s[0]] + f)[0] == s[0] && ([s[0]] + f)[1..] == f;
      } else {
        assert Filter(s, q) == f;
      }
    }
  }

  // ---------------------------------------------------------------------
  // Strings
  // ---------------------------------------------------------------------

  /** `sub` occurs in `s` starting at index `i`. */
  predicate OccursAt(s: string, sub: string, i: nat)
  {
    i + |sub| <= |s| && s[i..i + |sub|] == sub
  }

  /** `s.includes(sub)` */
  function Includes(s: string, sub: string): (r: bool)
    ensures r <==> exists i: nat :: OccursAt(s, sub, i)
    decreases |s|
  {
    if |s| < |sub| then false
    else if s[..|sub|] == sub then
      assert OccursAt(s, sub, 0);
      true
    else
      OccursLater(s, sub);
      Includes(s[1..], sub)
  }

  /** When `sub` is not at the front of `s`, it occurs in `s` iff it occurs in `s[1..]`. */
  lemma OccursLater(s: string, sub: string)
    requires |s| > 0 && !OccursAt(s, sub, 0)
    ensures (exists i: nat :: OccursAt(s, sub, i)) <==> (exists i: nat :: OccursAt(s[1..], sub, i))
  {
    if exists i: nat :: OccursAt(s[1..], sub, i) {
      var i: nat :| OccursAt(s[1..], sub, i);
      assert s[i + 1..i + 1 + |sub|] == s[1..][i..i + |sub|];
      assert OccursAt(s, sub, i + 1);
    }
    if exists i: nat :: OccursAt(s, sub, i) {
      var i: nat :| OccursAt(s, sub, i);
      assert i != 0;
      assert s[1..][i - 1..i - 1 + |sub|] == s[i..i + |sub|];
      assert OccursAt(s[1..], sub, i - 1);
    }
  }

  // ---------------------------------------------------------------------
  // Plain objects used as dictionaries (`Record<string, V>`)
  // ---------------------------------------------------------------------

  /** A plain object: its entries and the order in which its keys were first
      assigned. */
  datatype Record<V> = Record(entries: map<string, V>, keys: seq<string>)

  function EmptyRecord<V>(): (r: Record<V>)
    ensures RecordValid(r) && r.entries == map[]
  {
    Record(map[], [])
  }

  /** The creation-order list names every key exactly once. */
  ghost predicate RecordValid<V>(r: Record<V>)
  {
    && (forall k :: k in r.entries <==> k in r.keys)
    && (forall i, j :: 0 <= i < j < |r.keys| ==> r.keys[i] != r.keys[j])
  }

  /** `r[k] = v`: a new key goes last in creation order, an existing key keeps
      its place and gets the new value. */
  function Assign<V>(r: Record<V>, k: string, v: V): (r': Record<V>)
    ensures r'.entries.Keys == r.entries.Keys + {k} && r'.entries[k] == v
    ensures forall k' :: k' in r.entries && k' != k ==> r'.entries[k'] == r.entries[k']
    ensures k in r.entries ==> r'.keys == r.keys
    ensures k !in r.entries ==> r'.keys == r.keys + [k]
  {
    Record(r.entries[k := v], if k in r.entries then r.keys else r.keys + [k])
  }

  /** Assignment keeps a plain object well formed. */
  lemma AssignValid<V>(r: Record<V>, k: string, v: V)
    requires RecordValid(r)
    ensures RecordValid(Assign(r, k, v))
  {
  }

  predicate IsDigit(c: char)
  {
    '0' <= c <= '9'
  }

  predicate AllDigits(s: string)
  {
    forall i :: 0 <= i < |s| ==> IsDigit(s[i])
  }

  /** The number a string of decimal digits denotes. */
  function DigitsValue(s: string): nat
    requires AllDigits(s)
  {
    if s == [] then 0 else DigitsValue(s[..|s| - 1]) * 10 + (s[|s| - 1] as int - '0' as int)
  }

  /** An array index key: the canonical decimal form of an integer below 2^32 - 1. */
  predicate IsArrayIndex(k: string)
  {
    && |k| > 0
    && AllDigits(k)
    && (k[0] != '0' || |k| == 1)
    && DigitsValue(k) < 0xFFFF_FFFF
  }

  /** The numeric value of an array index key, and -1 for any other key. */
  function IndexValue(k: string): int
  {
    if IsArrayIndex(k) then DigitsValue(k) else -1
  }

  /** The elements of `s` are in ascending order of `key`. */
  predicate Ascending<T>(s: seq<T>, key: T -> int)
  {
    forall i, j :: 0 <= i < j < |s| ==> key(s[i]) <= key(s[j])
  }

  /** Inserts `x` into an ascending sequence before the first larger element. */
  function InsertBy<T>(x: T, s: seq<T>, key: T -> int): (r: seq<T>)
    requires Ascending(s, key)
    ensures Ascending(r, key)
    ensures multiset(r) == multiset(s) + multiset{x}
    ensures forall y :: y in r ==> y == x || y in s
  {
    if s == [] then [x]
    else if key(x) <= key(s[0]) then [x] + s
    else
      var tail := InsertBy(x, s[1..], key);
      assert s == [s[0]] + s[1..];
      AscendingHead(s, key);
      assert forall i :: 0 <= i < |tail| ==> tail[i] in tail;
      [s[0]] + tail
  }

  lemma AscendingHead<T>(s: seq<T>, key: T -> int)
    requires Ascending(s, key) && s != []
    ensures forall y :: y in s[1..] ==> key(s[0]) <= key(y)
  {
    forall y | y in s[1..] ensures key(s[0]) <= key(y) {
      var j :| 0 <= j < |s[1..]| && s[1..][j] == y;
      assert s[j + 1] == y;
    }
  }

  /** Insertion sort by `key`. */
  function SortBy<T>(s: seq<T>, key: T -> int): (r: seq<T>)
    ensures Ascending(r, key)
    ensures multiset(r) == multiset(s)
  {
    if s == [] then []
    else
      assert s == [s[0]] + s[1..];
      InsertBy(s[0], SortBy(s[1..], key), key)
  }

  /** Every key is either an array index or not, so the two filters together
      hold every key exactly as often as the list does. */
  lemma {:induction false} FilterPartition(keys: seq<string>)
    ensures multiset(Filter(keys, IsArrayIndex)) + multiset(Filter(keys, NotArrayIndex)) == multiset(keys)
  {
    if keys != [] {
      var h, t := keys[0], keys[1..];
      FilterPartition(t);
      assert keys == [h] + t;
      var f, g := Filter(t, IsArrayIndex), Filter(t, NotArrayIndex);
      if IsArrayIndex(h) {
        assert Filter(keys, IsArrayIndex) == [h] + f;
        assert Filter(keys, NotArrayIndex) == g;
      } else {
        assert Filter(keys, IsArrayIndex) == f;
        assert Filter(keys, NotArrayIndex) == [h] + g;
      }
    }
  }

  predicate NotArrayIndex(k: string)
  {
    !IsArrayIndex(k)
  }

  /** The order in which `Object.keys`, `Object.values` and `for … in` list
      the keys of a plain object whose keys were created in the order `keys`:
      array index keys first, in ascending numeric order, then every other key
      in creation order. */
  function OwnKeys(keys: seq<string>): seq<string>
  {
    SortBy(Filter(keys, IsArrayIndex), IndexValue) + Filter(keys, NotArrayIndex)
  }

  /** The listing order names the same keys as creation order, each as often. */
  lemma OwnKeysPermutes(keys: seq<string>)
    ensures multiset(OwnKeys(keys)) == multiset(keys)
  {
    FilterPartition(keys);
  }

  /** In the listing order every array index key comes before every other key,
      and the array index keys are in ascending numeric order. */
  lemma OwnKeysOrder(keys: seq<string>)
    ensures var r := OwnKeys(keys);
            forall i, j :: 0 <= i < j < |r| && IsArrayIndex(r[j]) ==>
              IsArrayIndex(r[i]) && DigitsValue(r[i]) <= DigitsValue(r[j])
  {
    var sorted := SortBy(Filter(keys, IsArrayIndex), IndexValue);
    var others := Filter(keys, NotArrayIndex);
    SortedKeysAreIndices(Filter(keys, IsArrayIndex));
    var r := sorted + others;
    forall i, j | 0 <= i < j < |r| && IsArrayIndex(r[j])
      ensures IsArrayIndex(r[i]) && DigitsValue(r[i]) <= DigitsValue(r[j])
    {
      assert j < |sorted| by {
        if j >= |sorted| {
          OtherKeyAt(others, r, |sorted|, j);
        }
      }
      assert r[i] == sorted[i] && r[j] == sorted[j];
      assert IndexValue(sorted[i]) <= IndexValue(sorted[j]);
    }
  }

  lemma OtherKeyAt(others: seq<string>, r: seq<string>, offset: nat, j: nat)
    requires forall x :: x in others ==> !IsArrayIndex(x)
    requires offset <= j < |r| && r[offset..] == others
    ensures !IsArrayIndex(r[j])
  {
    assert r[j] == others[j - offset];
  }

  lemma SortedKeysAreIndices(ks: seq<string>)
    requires forall x :: x in ks ==> IsArrayIndex(x)
    ensures forall i :: 0 <= i < |SortBy(ks, IndexValue)| ==> IsArrayIndex(SortBy(ks, IndexValue)[i])
  {
    var sorted := SortBy(ks, IndexValue);
    forall i | 0 <= i < |sorted| ensures IsArrayIndex(sorted[i]) {
      assert sorted[i] in multiset(sorted);
    }
  }

  /** With no array index key among them, keys are listed in creation order. */
  lemma OwnKeysWithoutIndices(keys: seq<string>)
    requires forall i :: 0 <= i < |keys| ==> !IsArrayIndex(keys[i])
    ensures OwnKeys(keys) == keys
  {
    FilterKeepsAll(keys, NotArrayIndex);
    FilterDropsAll(keys, IsArrayIndex);
  }

  lemma {:induction false} FilterKeepsAll<T>(s: seq<T>, p: T -> bool)
    requires forall i :: 0 <= i < |s| ==> p(s[i])
    ensures Filter(s, p) == s
  {
    if s != [] {
      FilterKeepsAll(s[1..], p);
    }
  }

  lemma {:induction false} FilterDropsAll<T>(s: seq<T>, p: T -> bool)
    requires forall i :: 0 <= i < |s| ==> !p(s[i])
    ensures Filter(s, p) == []
  {
    if s != [] {
      FilterDropsAll(s[1..], p);
    }
  }

  /** The entries of `m` under the keys `ks`, in that order. */
  function ValuesAt<V>(ks: seq<string>, m: map<string, V>): (vs: seq<V>)
    ensures forall v :: v in vs ==> exists k :: k in m && m[k] == v
    ensures (forall i :: 0 <= i < |ks| ==> ks[i] in m) ==>
              |vs| == |ks| && forall i :: 0 <= i < |ks| ==> vs[i] == m[ks[i]]
  {
    if ks == [] then []
    else
      var rest := ValuesAt(ks[1..], m);
      if ks[0] in m then
        assert forall i :: 1 <= i < |ks| ==> ks[1..][i - 1] == ks[i];
        [m[ks[0]]] + rest
      else
        rest
  }

  /** `Object.values(r)` */
  function Values<V>(r: Record<V>): (vs: seq<V>)
    ensures forall v :: v in vs ==> exists k :: k in r.entries && r.entries[k] == v
  {
    ValuesAt(OwnKeys(r.keys), r.entries)
  }

  /** `Object.values` of a well-formed object has one value per key. */
  lemma ValuesCount<V>(r: Record<V>)
    requires RecordValid(r)
    ensures |Values(r)| == |r.keys|
    ensures r.entries != map[] ==> Values(r) != []
  {
    var ks := OwnKeys(r.keys);
    OwnKeysPermutes(r.keys);
    forall i | 0 <= i < |ks| ensures ks[i] in r.entries {
      assert ks[i] in multiset(ks);
    }
    assert |multiset(ks)| == |multiset(r.keys)|;
    if r.entries != map[] {
      var k :| k in r.entries;
      assert k in r.keys;
    }
  }
}
