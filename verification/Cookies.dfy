/** The driver's cookie cache: a set-associative table from 64-bit keys to cookies in which a hit moves
    to the front of its bucket and an insertion pushes the last entry of the bucket out. */
module Cookies {
  import opened Sequences

  const COOKIEMAP_ENTRIES := 1024
  const MAX_COLLISIONS := 2
  const SLOTS := COOKIEMAP_ENTRIES * MAX_COLLISIONS

  type uint64 = x: int | 0 <= x < 0x1_0000_0000_0000_0000
  type uint32 = x: int | 0 <= x < 0x1_0000_0000

  /** `cookiemap_code`: the first slot of the key's bucket.  Buckets start at multiples of
      `MAX_COLLISIONS` and end inside the table, so two of them are equal or disjoint. */
  function Code(key: uint64): (c: nat)
    ensures c % MAX_COLLISIONS == 0 && c + MAX_COLLISIONS <= SLOTS
  {
    var value := (key / 0x1_0000_0000 + key) % 0x1_0000_0000;
    var code0: nat := value / 0x100_0000 % 256;
    var code1 := code0 * 31 + value / 0x1_0000 % 256;
    var code2 := code1 * 31 + value / 0x100 % 256;
    var code3 := code2 * 31 + value % 256;
    (code3 % COOKIEMAP_ENTRIES) * MAX_COLLISIONS
  }

  /** The bucket, by the bytes of the folded key: a base-31 number of them, most significant first, in the
      number of buckets. */
  lemma CodeExact(key: uint64, b3: nat, b2: nat, b1: nat, b0: nat)
    requires b3 < 256 && b2 < 256 && b1 < 256 && b0 < 256
    requires var low, high := key % 0x1_0000_0000, key / 0x1_0000_0000;
      (low + high) % 0x1_0000_0000 == b3 * 0x100_0000 + b2 * 0x1_0000 + b1 * 0x100 + b0
    ensures Code(key) == (29791 * b3 + 961 * b2 + 31 * b1 + b0) % 1024 * 2
  {
    var value := (key / 0x1_0000_0000 + key) % 0x1_0000_0000;
    FoldedKey(key);
    assert value / 0x100_0000 == b3;
    assert value / 0x1_0000 == b3 * 0x100 + b2;
    assert value / 0x100 == b3 * 0x1_0000 + b2 * 0x100 + b1;
    assert value / 0x100_0000 % 256 == b3 && value / 0x1_0000 % 256 == b2;
    assert value / 0x100 % 256 == b1 && value % 256 == b0;
  }

  lemma FoldedKey(key: uint64)
    ensures (key / 0x1_0000_0000 + key) % 0x1_0000_0000
         == (key % 0x1_0000_0000 + key / 0x1_0000_0000) % 0x1_0000_0000
  {
    var low, high := key % 0x1_0000_0000, key / 0x1_0000_0000;
    assert key == high * 0x1_0000_0000 + low;
  }

  // ------------------------------------------------------------------ recency, without a table

  /** Every key touched so far, the most recent first. */
  function Touch(l: seq<uint64>, k: uint64): seq<uint64> { [k] + Without(l, k) }

  /** The keys of one bucket, in the same order. */
  function Bucket(l: seq<uint64>, code: nat): seq<uint64> {
    if l == [] then [] else (if Code(l[0]) == code then [l[0]] else []) + Bucket(l[1..], code)
  }

  lemma {:induction false} WithoutAbsent(l: seq<uint64>, k: uint64)
    requires k !in l
    ensures Without(l, k) == l
  {
    if l != [] {
      WithoutAbsent(l[1..], k);
    }
  }

  lemma {:induction false} BucketMembers(l: seq<uint64>, code: nat)
    ensures forall x :: x in Bucket(l, code) <==> x in l && Code(x) == code
    ensures Distinct(l) ==> Distinct(Bucket(l, code))
  {
    hide Code;
    if l != [] {
      BucketMembers(l[1..], code);
      assert l == [l[0]] + l[1..];
      if Distinct(l) {
        assert Distinct(l[1..]);
        assert l[0] !in l[1..];
      }
    }
  }

  lemma {:induction false} BucketWithout(l: seq<uint64>, k: uint64, code: nat)
    ensures Bucket(Without(l, k), code) == Without(Bucket(l, code), k)
  {
    hide Code;
    if l != [] {
      BucketWithout(l[1..], k, code);
      var rest := Without(l[1..], k);
      if l[0] == k {
        assert Without(l, k) == rest;
      } else {
        assert Without(l, k) == [l[0]] + rest && ([l[0]] + rest)[1..] == rest;
      }
      if Code(l[0]) == code {
        assert Bucket(l, code) == [l[0]] + Bucket(l[1..], code);
        assert Bucket(l, code)[1..] == Bucket(l[1..], code);
      } else {
        assert Bucket(l, code) == Bucket(l[1..], code);
        assert l[0] != k ==> Bucket(Without(l, k), code) == Bucket(rest, code);
      }
    }
  }

  /** Touching a key touches its bucket and no other. */
  lemma BucketTouch(l: seq<uint64>, k: uint64, code: nat)
    ensures Bucket(Touch(l, k), code)
         == if Code(k) == code then Touch(Bucket(l, code), k) else Bucket(l, code)
  {
    hide Code;
    BucketWithout(l, k, code);
    assert Touch(l, k)[1..] == Without(l, k);
    if Code(k) != code {
      BucketMembers(l, code);
      WithoutAbsent(Bucket(l, code), k);
    }
  }

  lemma TouchDistinct(l: seq<uint64>, k: uint64)
    requires Distinct(l)
    ensures Distinct(Touch(l, k))
    ensures forall x :: x in Touch(l, k) <==> x == k || x in l
  {
    WithoutMembers(l, k);
  }

  /** In a list without repetitions, removing an element takes out its one place ... */
  lemma {:induction false} WithoutAt(l: seq<uint64>, i: nat)
    requires Distinct(l) && i < |l|
    ensures Without(l, l[i]) == l[..i] + l[i + 1..]
  {
    var rest := l[1..];
    if i == 0 {
      assert l[0] !in rest;
      WithoutAbsent(rest, l[0]);
    } else {
      assert Distinct(rest) && rest[i - 1] == l[i];
      WithoutAt(rest, i - 1);
      assert Without(l, l[i]) == [l[0]] + (rest[..i - 1] + rest[i..]);
      assert l[..i] == [l[0]] + rest[..i - 1] && l[i + 1..] == rest[i..];
    }
  }

  /** ... so touching it moves it to the front. */
  lemma TouchMoves(l: seq<uint64>, i: nat)
    requires Distinct(l) && i < |l|
    ensures Touch(l, l[i]) == [l[i]] + l[..i] + l[i + 1..]
  {
    WithoutAt(l, i);
  }

  /** Removing a key that is not among the first `n` leaves those where they are. */
  lemma {:induction false} WithoutBehind(l: seq<uint64>, k: uint64, n: nat)
    requires k !in First(l, n)
    ensures First(l, n) <= Without(l, k)
    ensures |l| <= n ==> Without(l, k) == l
  {
    if l != [] && n > 0 {
      assert First(l, n) == [l[0]] + First(l[1..], n - 1);
      WithoutBehind(l[1..], k, n - 1);
    }
  }

  function First(l: seq<uint64>, n: nat): seq<uint64> {
    if |l| <= n then l else l[..n]
  }

  // ------------------------------------------------------------------ the table

  /** A bucket of the table holds the first keys of `l`, and zeros behind them. */
  ghost predicate Cached(keys: seq<uint64>, values: seq<uint32>, at: nat, l: seq<uint64>, m: map<uint64, uint32>)
    requires at + MAX_COLLISIONS <= |keys| == |values|
  {
    forall j :: at <= j < at + MAX_COLLISIONS ==> SlotOk(keys[j], values[j], l, j - at, m)
  }

  ghost predicate SlotOk(key: uint64, value: uint32, l: seq<uint64>, i: nat, m: map<uint64, uint32>) {
    && key == (if i < |l| then l[i] else 0)
    && (i < |l| ==> l[i] in m && value == m[l[i]])
  }

  /** Slots `at .. at + x` move up by one and the first one takes `v`. */
  function Pushed<T>(s: seq<T>, at: nat, x: nat, v: T): seq<T>
    requires at + x < |s|
  {
    s[..at] + [v] + s[at..at + x] + s[at + x + 1..]
  }

  lemma PushedAt<T>(s: seq<T>, at: nat, x: nat, v: T, j: nat)
    requires at + x < |s| && j < |s|
    ensures |Pushed(s, at, x, v)| == |s|
    ensures Pushed(s, at, x, v)[j] == if j == at then v else if at < j <= at + x then s[j - 1] else s[j]
  {
  }

  method Push<T>(a: array<T>, at: nat, last: nat, v: T)
    requires at + last < a.Length
    modifies a
    ensures a[..] == Pushed(old(a[..]), at, last, v)
  {
    ghost var s := a[..];
    var x := last;
    while x > 0
      invariant 0 <= x <= last
      invariant forall j :: at + x < j <= at + last ==> a[j] == s[j - 1]
      invariant forall j :: 0 <= j <= at + x ==> a[j] == s[j]
      invariant forall j :: at + last < j < |s| ==> a[j] == s[j]
    {
      a[at + x] := a[at + x - 1];
      x := x - 1;
    }
    a[at] := v;
    forall j | 0 <= j < |s|
      ensures a[..][j] == Pushed(s, at, last, v)[j]
    {
      PushedAt(s, at, last, v, j);
    }
  }

  /** A hit: the bucket becomes what the touched recency list says. */
  lemma HitCached(keys: seq<uint64>, values: seq<uint32>, at: nat, l: seq<uint64>, m: map<uint64, uint32>, x: nat)
    requires at + MAX_COLLISIONS <= |keys| == |values| && Distinct(l)
    requires Cached(keys, values, at, l, m) && x < MAX_COLLISIONS && x < |l|
    ensures |Pushed(keys, at, x, l[x])| == |keys| && |Pushed(values, at, x, values[at + x])| == |values|
    ensures Cached(Pushed(keys, at, x, l[x]), Pushed(values, at, x, values[at + x]), at, Touch(l, l[x]), m)
  {
    hide Touch;
    TouchMoves(l, x);
    PushedAt(keys, at, x, l[x], 0);
    PushedAt(values, at, x, values[at + x], 0);
    var t := Touch(l, l[x]);
    assert SlotOk(keys[at + x], values[at + x], l, x, m);
    forall j | at <= j < at + MAX_COLLISIONS
      ensures SlotOk(Pushed(keys, at, x, l[x])[j], Pushed(values, at, x, values[at + x])[j], t, j - at, m)
    {
      PushedAt(keys, at, x, l[x], j);
      PushedAt(values, at, x, values[at + x], j);
      assert SlotOk(keys[j], values[j], l, j - at, m);
      if j > at { assert SlotOk(keys[j - 1], values[j - 1], l, j - 1 - at, m); }
    }
  }

  /** An insertion of a key that the bucket does not hold. */
  lemma MissCached(keys: seq<uint64>, values: seq<uint32>, at: nat, l: seq<uint64>, m: map<uint64, uint32>,
                   k: uint64, v: uint32)
    requires at + MAX_COLLISIONS <= |keys| == |values|
    requires Cached(keys, values, at, l, m) && k !in First(l, MAX_COLLISIONS)
    ensures var x := MAX_COLLISIONS - 1;
      && |Pushed(keys, at, x, k)| == |keys| && |Pushed(values, at, x, v)| == |values|
      && Cached(Pushed(keys, at, x, k), Pushed(values, at, x, v), at, Touch(l, k), m[k := v])
  {
    hide Without;
    WithoutBehind(l, k, MAX_COLLISIONS);
    var x := MAX_COLLISIONS - 1;
    PushedAt(keys, at, x, k, 0);
    PushedAt(values, at, x, v, 0);
    var t := Touch(l, k);
    forall j | at <= j < at + MAX_COLLISIONS
      ensures SlotOk(Pushed(keys, at, x, k)[j], Pushed(values, at, x, v)[j], t, j - at, m[k := v])
    {
      PushedAt(keys, at, x, k, j);
      PushedAt(values, at, x, v, j);
      if j > at {
        var i := j - 1 - at;
        assert SlotOk(keys[j - 1], values[j - 1], l, i, m);
        if i < |l| { assert First(l, MAX_COLLISIONS)[i] == l[i] == t[i + 1]; }
      }
    }
  }

  /** Another bucket does not notice. */
  lemma OtherCached(keys: seq<uint64>, values: seq<uint32>, at: nat, l: seq<uint64>, m: map<uint64, uint32>,
                    m': map<uint64, uint32>, push: nat, x: nat, k: uint64, v: uint32)
    requires push + MAX_COLLISIONS <= |keys| == |values| && at + MAX_COLLISIONS <= |keys|
    requires x < MAX_COLLISIONS && at % MAX_COLLISIONS == 0 && push % MAX_COLLISIONS == 0 && at != push
    requires Cached(keys, values, at, l, m)
    requires forall y :: y in First(l, MAX_COLLISIONS) && y in m ==> y in m' && m'[y] == m[y]
    ensures |Pushed(keys, push, x, k)| == |keys| && |Pushed(values, push, x, v)| == |values|
    ensures Cached(Pushed(keys, push, x, k), Pushed(values, push, x, v), at, l, m')
  {
    PushedAt(keys, push, x, k, 0);
    PushedAt(values, push, x, v, 0);
    forall j | at <= j < at + MAX_COLLISIONS
      ensures SlotOk(Pushed(keys, push, x, k)[j], Pushed(values, push, x, v)[j], l, j - at, m')
    {
      PushedAt(keys, push, x, k, j);
      PushedAt(values, push, x, v, j);
      assert SlotOk(keys[j], values[j], l, j - at, m);
      if j - at < |l| { assert First(l, MAX_COLLISIONS)[j - at] == l[j - at]; }
    }
  }

  /** The cache: bucket by bucket, the table holds the most recently touched keys with their cookies. */
  ghost predicate TableOk(keys: seq<uint64>, values: seq<uint32>, recent: seq<uint64>, m: map<uint64, uint32>) {
    && |keys| == |values| == SLOTS
    && Distinct(recent) && 0 !in recent
    && (forall k :: k in recent <==> k in m)
    && forall at :: 0 <= at && at + MAX_COLLISIONS <= SLOTS && at % MAX_COLLISIONS == 0
         ==> Cached(keys, values, at, Bucket(recent, at), m)
  }

  /** Being among the `MAX_COLLISIONS` most recently touched keys of one's bucket. */
  predicate Fresh(recent: seq<uint64>, k: uint64) {
    k in First(Bucket(recent, Code(k)), MAX_COLLISIONS)
  }

  lemma HitTable(keys: seq<uint64>, values: seq<uint32>, recent: seq<uint64>, m: map<uint64, uint32>, k: uint64, x: nat)
    requires TableOk(keys, values, recent, m) && x < MAX_COLLISIONS && k != 0 && keys[Code(k) + x] == k
    ensures Fresh(recent, k) && k in m && values[Code(k) + x] == m[k]
    ensures TableOk(Pushed(keys, Code(k), x, k), Pushed(values, Code(k), x, values[Code(k) + x]), Touch(recent, k), m)
  {
    hide Code, Touch, Bucket, Pushed;
    var at, l := Code(k), Bucket(recent, Code(k));
    var v := values[at + x];
    assert Cached(keys, values, at, l, m);
    assert SlotOk(keys[at + x], v, l, x, m);
    assert First(l, MAX_COLLISIONS)[x] == l[x];
    TouchDistinct(recent, k);
    BucketMembers(recent, at);
    HitCached(keys, values, at, l, m, x);
    forall b | 0 <= b && b + MAX_COLLISIONS <= SLOTS && b % MAX_COLLISIONS == 0
      ensures Cached(Pushed(keys, at, x, k), Pushed(values, at, x, v), b, Bucket(Touch(recent, k), b), m)
    {
      BucketTouch(recent, k, b);
      if b != at {
        OtherCached(keys, values, b, Bucket(recent, b), m, m, at, x, k, v);
      }
    }
  }

  lemma MissTable(keys: seq<uint64>, values: seq<uint32>, recent: seq<uint64>, m: map<uint64, uint32>, k: uint64, v: uint32)
    requires TableOk(keys, values, recent, m) && k != 0 && !Fresh(recent, k)
    ensures var x := MAX_COLLISIONS - 1;
      TableOk(Pushed(keys, Code(k), x, k), Pushed(values, Code(k), x, v), Touch(recent, k), m[k := v])
  {
    hide Code, Touch, Bucket, Pushed;
    var at, l, x := Code(k), Bucket(recent, Code(k)), MAX_COLLISIONS - 1;
    TouchDistinct(recent, k);
    MissCached(keys, values, at, l, m, k, v);
    forall b | 0 <= b && b + MAX_COLLISIONS <= SLOTS && b % MAX_COLLISIONS == 0
      ensures Cached(Pushed(keys, at, x, k), Pushed(values, at, x, v), b, Bucket(Touch(recent, k), b), m[k := v])
    {
      BucketTouch(recent, k, b);
      BucketMembers(recent, b);
      if b != at {
        OtherCached(keys, values, b, Bucket(recent, b), m, m[k := v], at, x, k, v);
      }
    }
  }

  /** No slot of the bucket holds the key exactly when it is not among the most recent. */
  lemma NotFresh(keys: seq<uint64>, values: seq<uint32>, recent: seq<uint64>, m: map<uint64, uint32>, k: uint64)
    requires TableOk(keys, values, recent, m) && k != 0
    requires forall j :: Code(k) <= j < Code(k) + MAX_COLLISIONS ==> keys[j] != k
    ensures !Fresh(recent, k)
  {
    hide Code, Bucket;
    var l := Bucket(recent, Code(k));
    assert Cached(keys, values, Code(k), l, m);
    forall i | 0 <= i < |First(l, MAX_COLLISIONS)|
      ensures First(l, MAX_COLLISIONS)[i] != k
    {
      assert SlotOk(keys[Code(k) + i], values[Code(k) + i], l, i, m);
    }
  }

  class CookieMap {
    const keys: array<uint64>
    const values: array<uint32>
    /** Ghost history: every key added so far by recency, and the cookie it was last added with. */
    ghost var recent: seq<uint64>
    ghost var cookies: map<uint64, uint32>

    ghost predicate Valid()
      reads this, keys, values
    {
      TableOk(keys[..], values[..], recent, cookies)
    }

    constructor ()
      ensures Valid() && fresh(keys) && fresh(values) && recent == [] && cookies == map[]
    {
      keys := new uint64[SLOTS](_ => 0);
      values := new uint32[SLOTS](_ => 0);
      recent, cookies := [], map[];
    }

    /** `cookiemap_exists`: zero, or the cookie the key was last added with.  It hits exactly the keys that
        are among the most recently touched of their bucket, and a hit counts as a touch. */
    method Exists(key: uint64) returns (value: uint32)
      requires Valid() && key != 0 && forall k :: k in cookies ==> cookies[k] != 0
      modifies this`recent, keys, values
      ensures Valid()
      ensures value != 0 <==> Fresh(old(recent), key)
      ensures value != 0 ==> key in cookies && value == cookies[key]
      ensures recent == if value != 0 then Touch(old(recent), key) else old(recent)
    {
      hide Code, Touch, Bucket, Pushed, TableOk, Fresh;
      TableSlots(keys[..], values[..], recent, cookies);
      var code := Code(key);
      var x := 0;
      while x < MAX_COLLISIONS
        invariant 0 <= x <= MAX_COLLISIONS
        invariant forall j :: code <= j < code + x ==> keys[j] != key
      {
        if keys[code + x] == key {
          value := values[code + x];
          HitTable(keys[..], values[..], recent, cookies, key, x);
          Push(keys, code, x, key);
          Push(values, code, x, value);
          recent := Touch(recent, key);
          return;
        }
        x := x + 1;
      }
      NotFresh(keys[..], values[..], recent, cookies, key);
      value := 0;
    }

    /** `cookiemap_add`, after a miss. */
    method Add(key: uint64, value: uint32)
      requires Valid() && key != 0 && !Fresh(recent, key)
      modifies this, keys, values
      ensures Valid() && recent == Touch(old(recent), key) && cookies == old(cookies)[key := value]
    {
      hide Code, Touch, Bucket, Pushed, TableOk, Fresh;
      TableSlots(keys[..], values[..], recent, cookies);
      MissTable(keys[..], values[..], recent, cookies, key, value);
      var code := Code(key);
      Push(keys, code, MAX_COLLISIONS - 1, key);
      Push(values, code, MAX_COLLISIONS - 1, value);
      recent, cookies := Touch(recent, key), cookies[key := value];
    }
  }

  lemma TableSlots(keys: seq<uint64>, values: seq<uint32>, recent: seq<uint64>, m: map<uint64, uint32>)
    requires TableOk(keys, values, recent, m)
    ensures |keys| == |values| == SLOTS
  {
  }

  // ------------------------------------------------------------------ how long a key stays

  function TouchAll(l: seq<uint64>, ks: seq<uint64>): seq<uint64> {
    if ks == [] then l else Touch(TouchAll(l, ks[..|ks| - 1]), ks[|ks| - 1])
  }

  /** What lies in front of `k`. */
  function Before(l: seq<uint64>, k: uint64): (b: seq<uint64>)
    requires k in l
    ensures |b| < |l| && b == l[..|b|] && l[|b|] == k && k !in b
  {
    if l[0] == k then [] else [l[0]] + Before(l[1..], k)
  }

  lemma WithoutCons(x: uint64, rest: seq<uint64>, y: uint64)
    ensures Without([x] + rest, y) == (if x == y then Without(rest, y) else [x] + Without(rest, y))
  {
    assert ([x] + rest)[1..] == rest;
  }

  lemma BeforeCons(x: uint64, rest: seq<uint64>, k: uint64)
    ensures x == k ==> Before([x] + rest, k) == []
    ensures x != k && k in rest ==> Before([x] + rest, k) == [x] + Before(rest, k)
  {
    assert ([x] + rest)[1..] == rest;
  }

  lemma {:induction false} BeforeWithout(l: seq<uint64>, k: uint64, y: uint64)
    requires k in l && y != k
    ensures k in Without(l, y) && Before(Without(l, y), k) == Without(Before(l, k), y)
  {
    hide Without, Before;
    var x, rest := l[0], l[1..];
    assert l == [x] + rest;
    WithoutMembers(l, y);
    WithoutCons(x, rest, y);
    BeforeCons(x, rest, k);
    BeforeCons(x, Without(rest, y), k);
    if x == k {
      WithoutAbsent([], y);
    } else {
      BeforeWithout(rest, k, y);
      WithoutCons(x, Before(rest, k), y);
    }
  }

  lemma BeforeTouch(l: seq<uint64>, k: uint64, y: uint64)
    requires k in l && y != k
    ensures k in Touch(l, y) && Before(Touch(l, y), k) == Touch(Before(l, k), y)
  {
    BeforeWithout(l, k, y);
    assert Touch(l, y)[1..] == Without(l, y);
    assert Touch(l, y)[0] == y && k in Touch(l, y)[1..];
  }

  /** The keys of `k`'s bucket among `ks`. */
  ghost function Rivals(ks: seq<uint64>, k: uint64): set<uint64> {
    set y | y in ks && Code(y) == Code(k)
  }

  lemma {:induction false} InFront(l: seq<uint64>, k: uint64, ks: seq<uint64>)
    requires Distinct(l) && k !in ks
    ensures var b := Bucket(TouchAll(Touch(l, k), ks), Code(k));
      && Distinct(TouchAll(Touch(l, k), ks))
      && k in b && Distinct(Before(b, k))
      && (forall y :: y in Before(b, k) <==> y in Rivals(ks, k))
  {
    hide Code;
    TouchDistinct(l, k);
    if ks == [] {
      BucketTouch(l, k, Code(k));
      assert Before(Bucket(Touch(l, k), Code(k)), k) == [];
    } else {
      var init, y := ks[..|ks| - 1], ks[|ks| - 1];
      assert ks == init + [y];
      InFront(l, k, init);
      var list := TouchAll(Touch(l, k), init);
      var b := Bucket(list, Code(k));
      TouchDistinct(list, y);
      BucketTouch(list, y, Code(k));
      if Code(y) == Code(k) {
        BeforeTouch(b, k, y);
        TouchDistinct(Before(b, k), y);
      }
    }
  }

  lemma {:induction false} DistinctCount(l: seq<uint64>, s: set<uint64>)
    requires Distinct(l) && forall y :: y in l <==> y in s
    ensures |l| == |s|
  {
    if l == [] {
      assert s == {};
    } else {
      assert l == [l[0]] + l[1..] && l[0] !in l[1..];
      DistinctCount(l[1..], s - {l[0]});
    }
  }

  /** True least-recently-used replacement: after a touch of `k` and touches of other keys, the cache
      still holds `k` exactly when fewer than `MAX_COLLISIONS` different keys of its bucket were among
      them. */
  lemma StaysCached(l: seq<uint64>, k: uint64, ks: seq<uint64>)
    requires Distinct(l) && k !in ks
    ensures Fresh(TouchAll(Touch(l, k), ks), k) <==> |Rivals(ks, k)| < MAX_COLLISIONS
  {
    hide Code, TouchAll, Bucket;
    InFront(l, k, ks);
    var b := Bucket(TouchAll(Touch(l, k), ks), Code(k));
    var front := Before(b, k);
    DistinctCount(front, Rivals(ks, k));
    BucketMembers(TouchAll(Touch(l, k), ks), Code(k));
    if |front| < MAX_COLLISIONS {
      assert First(b, MAX_COLLISIONS)[|front|] == k;
    } else {
      forall i | 0 <= i < MAX_COLLISIONS
        ensures First(b, MAX_COLLISIONS)[i] != k
      {
        assert front[i] == b[i];
      }
    }
  }

  // ------------------------------------------------------------------ get_cookie over a whole run

  /** A request for the cookie of a key; `room` says whether a new one could be announced. */
  datatype Request = Request(key: uint64, room: bool)

  datatype Answer = Resolved(cookie: nat) | Unresolved

  datatype Lookup = Lookup(key: uint64, cookie: nat)

  /** The lookups that found or made a cookie, the last cookie made, and all answers. */
  datatype History = History(lookups: seq<Lookup>, next: nat, answers: seq<Answer>)

  function KeysOf(ls: seq<Lookup>): (ks: seq<uint64>)
    ensures |ks| == |ls| && forall i :: 0 <= i < |ls| ==> ks[i] == ls[i].key
  {
    seq(|ls|, i requires 0 <= i < |ls| => ls[i].key)
  }

  /** Where the key was last used, or -1. */
  function LastUse(ks: seq<uint64>, k: uint64): (p: int)
    ensures -1 <= p < |ks|
    ensures p >= 0 ==> ks[p] == k
    ensures forall i :: p < i < |ks| ==> ks[i] != k
  {
    if ks == [] then -1
    else if ks[|ks| - 1] == k then |ks| - 1
    else LastUse(ks[..|ks| - 1], k)
  }

  /** The cache without a table: a key is held as long as fewer than `MAX_COLLISIONS` different keys of
      its bucket were used since its last use. */
  ghost predicate Held(ks: seq<uint64>, k: uint64) {
    LastUse(ks, k) >= 0 && |Rivals(ks[LastUse(ks, k) + 1..], k)| < MAX_COLLISIONS
  }

  /** `get_cookie`, without a table. */
  ghost function Answered(h: History, r: Request, stride: nat): History {
    var ks := KeysOf(h.lookups);
    if Held(ks, r.key) then
      var c := h.lookups[LastUse(ks, r.key)].cookie;
      History(h.lookups + [Lookup(r.key, c)], h.next, h.answers + [Resolved(c)])
    else if r.room then
      var c := h.next + stride;
      History(h.lookups + [Lookup(r.key, c)], c, h.answers + [Resolved(c)])
    else h.(answers := h.answers + [Unresolved])
  }

  ghost function Resolve(rs: seq<Request>, first: nat, stride: nat): History {
    if rs == [] then History([], first, [])
    else Answered(Resolve(rs[..|rs| - 1], first, stride), rs[|rs| - 1], stride)
  }

  lemma LastUseSnoc(ks: seq<uint64>, k: uint64, x: uint64)
    ensures LastUse(ks + [k], x) == if x == k then |ks| else LastUse(ks, x)
  {
    assert (ks + [k])[..|ks|] == ks;
  }

  lemma TouchAllSnoc(l: seq<uint64>, ks: seq<uint64>, k: uint64)
    ensures TouchAll(l, ks + [k]) == Touch(TouchAll(l, ks), k)
  {
    assert (ks + [k])[..|ks|] == ks;
  }

  lemma {:induction false} TouchAllAppend(l: seq<uint64>, a: seq<uint64>, b: seq<uint64>)
    ensures TouchAll(l, a + b) == TouchAll(TouchAll(l, a), b)
  {
    hide Touch;
    if b == [] {
      assert a + b == a;
    } else {
      var init, last := b[..|b| - 1], b[|b| - 1];
      TouchAllAppend(l, a, init);
      assert a + b == a + init + [last];
      TouchAllSnoc(l, a + init, last);
    }
  }

  lemma {:induction false} TouchedMembers(ks: seq<uint64>)
    ensures Distinct(TouchAll([], ks)) && forall x :: x in TouchAll([], ks) <==> x in ks
  {
    hide Touch;
    if ks != [] {
      var init, last := ks[..|ks| - 1], ks[|ks| - 1];
      TouchedMembers(init);
      TouchDistinct(TouchAll([], init), last);
      assert ks == init + [last];
    }
  }

  /** Being among the most recently touched keys of the bucket is being held. */
  lemma FreshIsHeld(ks: seq<uint64>, k: uint64)
    ensures Fresh(TouchAll([], ks), k) <==> Held(ks, k)
  {
    hide Code, TouchAll, Touch, Bucket, LastUse;
    var p := LastUse(ks, k);
    TouchedMembers(ks);
    BucketMembers(TouchAll([], ks), Code(k));
    if p >= 0 {
      var before, later := ks[..p], ks[p + 1..];
      assert ks == before + [k] + later;
      TouchAllAppend([], before + [k], later);
      TouchAllSnoc([], before, k);
      TouchedMembers(before);
      StaysCached(TouchAll([], before), k, later);
    }
  }

  /** What the table's own books say is what the lookups say. */
  ghost predicate Agrees(recent: seq<uint64>, m: map<uint64, uint32>, ls: seq<Lookup>) {
    var ks := KeysOf(ls);
    && recent == TouchAll([], ks)
    && (forall k :: k in m <==> LastUse(ks, k) >= 0)
    && forall k :: k in m ==> m[k] == ls[LastUse(ks, k)].cookie
  }

  /** One more lookup: the key is touched and has its cookie. */
  lemma AgreesMore(recent: seq<uint64>, m: map<uint64, uint32>, ls: seq<Lookup>, k: uint64, c: uint32)
    requires Agrees(recent, m, ls)
    ensures Agrees(Touch(recent, k), m[k := c], ls + [Lookup(k, c)])
  {
    hide LastUse, TouchAll, Touch;
    var ks := KeysOf(ls);
    assert KeysOf(ls + [Lookup(k, c)]) == ks + [k];
    TouchAllSnoc([], ks, k);
    forall x
      ensures LastUse(ks + [k], x) == if x == k then |ks| else LastUse(ks, x)
    {
      LastUseSnoc(ks, k, x);
    }
  }

  /** `get_cookie`: the cookie the key was last given if it is held, else a new one if there is room. */
  method GetCookie(m: CookieMap, r: Request, next: uint32, stride: nat, ghost h: History)
    returns (answer: Answer, next': uint32, ghost h': History)
    requires m.Valid() && Agrees(m.recent, m.cookies, h.lookups) && (forall k :: k in m.cookies ==> m.cookies[k] != 0)
    requires r.key != 0 && next == h.next && stride > 0 && next + stride < 0x1_0000_0000
    modifies m, m.keys, m.values
    ensures h' == Answered(h, r, stride) && h'.answers == h.answers + [answer] && next' == h'.next
    ensures next' <= next + stride
    ensures m.Valid() && Agrees(m.recent, m.cookies, h'.lookups)
    ensures forall k :: k in m.cookies ==> m.cookies[k] != 0
  {
    hide CookieMap.Valid, Fresh, Held, LastUse, Agrees, Touch, KeysOf;
    AgreesRecent(m.recent, m.cookies, h.lookups);
    FreshIsHeld(KeysOf(h.lookups), r.key);
    h' := Answered(h, r, stride);
    next' := next;
    ghost var before := m.cookies;
    AgreesHit(m.recent, m.cookies, h.lookups, r.key);
    var cookie := m.Exists(r.key);
    if cookie != 0 {
      AgreesMore(old(m.recent), before, h.lookups, r.key, cookie);
      assert before[r.key := cookie] == before;
      return Resolved(cookie), next', h';
    }
    if r.room {
      next' := next + stride;
      AgreesMore(m.recent, before, h.lookups, r.key, next');
      m.Add(r.key, next');
      return Resolved(next'), next', h';
    }
    answer := Unresolved;
  }

  lemma AgreesRecent(recent: seq<uint64>, m: map<uint64, uint32>, ls: seq<Lookup>)
    requires Agrees(recent, m, ls)
    ensures recent == TouchAll([], KeysOf(ls))
  {
  }

  lemma AgreesHit(recent: seq<uint64>, m: map<uint64, uint32>, ls: seq<Lookup>, k: uint64)
    requires Agrees(recent, m, ls)
    ensures var p := LastUse(KeysOf(ls), k); k in m ==> 0 <= p < |ls| && m[k] == ls[p].cookie
  {
  }

  /** Any list of requests on an empty cache gets exactly the answers of the table-free `get_cookie`. */
  method GetCookies(rs: seq<Request>, first: uint32, stride: nat) returns (answers: seq<Answer>)
    requires (forall r :: r in rs ==> r.key != 0) && stride > 0 && first + stride * |rs| < 0x1_0000_0000
    ensures answers == Resolve(rs, first, stride).answers
  {
    hide CookieMap.Valid, Answered, Agrees;
    var m := new CookieMap();
    ghost var h := History([], first, []);
    assert Agrees(m.recent, m.cookies, []) by { AgreesEmpty(); }
    answers := [];
    var next := first;
    var i := 0;
    assert rs[..0] == [];
    while i < |rs|
      invariant 0 <= i <= |rs| && h == Resolve(rs[..i], first, stride) && answers == h.answers
      invariant next == h.next && next <= first + stride * i
      invariant m.Valid() && fresh(m) && fresh(m.keys) && fresh(m.values)
      invariant Agrees(m.recent, m.cookies, h.lookups) && forall k :: k in m.cookies ==> m.cookies[k] != 0
    {
      Strides(stride, i, |rs|);
      assert rs[..i + 1][..i] == rs[..i];
      var answer, next', h' := GetCookie(m, rs[i], next, stride, h);
      answers, next, h := answers + [answer], next', h';
      i := i + 1;
    }
    assert rs[..i] == rs;
  }

  lemma AgreesEmpty()
    ensures Agrees([], map[], [])
  {
  }

  lemma {:induction false} Strides(stride: nat, i: nat, n: nat)
    requires i < n
    ensures stride * i + stride == stride * (i + 1) <= stride * n
    decreases n - i
  {
    NextStride(stride, i);
    if i + 1 < n {
      Strides(stride, i + 1, n);
    }
  }

  lemma NextStride(stride: nat, i: nat)
    ensures stride * i + stride == stride * (i + 1)
  {
  }

  /** Where no cookie can be announced, none is made. */
  lemma {:induction false} NoRoomNoCookie(rs: seq<Request>, first: nat, stride: nat)
    requires forall i :: 0 <= i < |rs| ==> !rs[i].room
    ensures var h := Resolve(rs, first, stride);
      h.lookups == [] && h.next == first && forall i :: 0 <= i < |h.answers| ==> h.answers[i] == Unresolved
  {
    if rs != [] {
      NoRoomNoCookie(rs[..|rs| - 1], first, stride);
      var h := Resolve(rs[..|rs| - 1], first, stride);
      assert !Held(KeysOf(h.lookups), rs[|rs| - 1].key);
    }
  }

  ghost predicate OneKeyEach(h: History) {
    && (forall i :: 0 <= i < |h.lookups| ==> h.lookups[i].cookie <= h.next)
    && forall i, j :: 0 <= i < |h.lookups| && 0 <= j < |h.lookups| && h.lookups[i].cookie == h.lookups[j].cookie
         ==> h.lookups[i].key == h.lookups[j].key
  }

  /** Over every run a cookie never stands for two keys, whatever the cache forgets. */
  lemma {:induction false} CookiesAreUnique(rs: seq<Request>, first: nat, stride: nat)
    requires stride > 0
    ensures OneKeyEach(Resolve(rs, first, stride))
  {
    hide OneKeyEach, Answered;
    if rs == [] {
      assert OneKeyEach(History([], first, [])) by { NoKeyYet(first); }
    } else {
      CookiesAreUnique(rs[..|rs| - 1], first, stride);
      AnsweredUnique(Resolve(rs[..|rs| - 1], first, stride), rs[|rs| - 1], stride);
    }
  }

  lemma NoKeyYet(first: nat)
    ensures OneKeyEach(History([], first, []))
  {
  }

  lemma AnsweredUnique(h: History, r: Request, stride: nat)
    requires OneKeyEach(h) && stride > 0
    ensures OneKeyEach(Answered(h, r, stride))
  {
    hide LastUse, Rivals;
    var ks, t := KeysOf(h.lookups), Answered(h, r, stride);
    if Held(ks, r.key) {
      var p := LastUse(ks, r.key);
      assert h.lookups[p].key == r.key && h.lookups[p].cookie == t.lookups[|h.lookups|].cookie;
    }
  }
}
