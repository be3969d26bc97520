/** Redis keys as byte strings, the byte order of a sorted set whose members all
    score 0, and the naming of data keys. */
module ByteStrings {

  type Byte = b: int | 0 <= b < 256

  /** The bytes a UTF-8 string can hold. `Utf8.NoTopByte` proves that 0xFF is never one. */
  type TextByte = b: int | 0 <= b < 255

  type Bytes = seq<Byte>
  type Key = seq<TextByte>

  const COLON: TextByte := 58

  /** `a` sorts strictly before `b` (memcmp, then length). */
  predicate Before(a: Bytes, b: Bytes)
    decreases |a|
  {
    b != [] && (a == [] || a[0] < b[0] || (a[0] == b[0] && Before(a[1..], b[1..])))
  }

  lemma {:induction false} BeforeIrreflexive(a: Bytes)
    ensures !Before(a, a)
    decreases |a|
  {
    if a != [] {
      BeforeIrreflexive(a[1..]);
    }
  }

  lemma {:induction false} BeforeTransitive(a: Bytes, b: Bytes, c: Bytes)
    requires Before(a, b) && Before(b, c)
    ensures Before(a, c)
    decreases |a|
  {
    if a != [] && a[0] == b[0] && b[0] == c[0] {
      BeforeTransitive(a[1..], b[1..], c[1..]);
    }
  }

  lemma {:induction false} BeforeTotal(a: Bytes, b: Bytes)
    ensures Before(a, b) || a == b || Before(b, a)
    decreases |a|
  {
    if a != [] && b != [] && a[0] == b[0] {
      BeforeTotal(a[1..], b[1..]);
      assert a == [a[0]] + a[1..] && b == [b[0]] + b[1..];
    }
  }

  ghost predicate Ascending(keys: seq<Key>) {
    forall i, j :: 0 <= i < j < |keys| ==> Before(keys[i], keys[j])
  }

  /** The exclusive upper bound `index_page` puts on the keys under `p`. */
  function UpperBound(p: Bytes): Bytes {
    p + [0xFF]
  }

  /** The interval `[p` .. `(p 0xFF` of `ZRANGEBYLEX` holds exactly the keys under `p`. */
  lemma {:induction false} PrefixRangeExact(p: Key, k: Key)
    ensures (k == p || Before(p, k)) && Before(k, UpperBound(p)) <==> p <= k
    decreases |p|
  {
    if p == [] {
      assert UpperBound(p) == [0xFF];
    } else if k != [] {
      assert UpperBound(p)[1..] == UpperBound(p[1..]);
      PrefixRangeExact(p[1..], k[1..]);
      assert k[0] == p[0] ==> (p <= k <==> p[1..] <= k[1..]);
      if k[0] == p[0] && k[1..] == p[1..] {
        assert k == [k[0]] + k[1..] == p;
      }
    }
  }

  /** `full_key`: where the caller's key lives in Redis. */
  function FullKey(keyPrefix: Key, key: Key): Key {
    if keyPrefix == [] then key else keyPrefix + [COLON] + key
  }

  /** `logical_key`: the caller's key for a Redis key. */
  function LogicalKey(keyPrefix: Key, full: Key): Key {
    if keyPrefix == [] then full
    else if keyPrefix + [COLON] <= full then full[|keyPrefix| + 1..]
    else full
  }

  lemma KeyNamesRoundTrip(keyPrefix: Key, key: Key)
    ensures LogicalKey(keyPrefix, FullKey(keyPrefix, key)) == key
    ensures forall full | FullKey(keyPrefix, []) <= full ::
              FullKey(keyPrefix, LogicalKey(keyPrefix, full)) == full
    ensures forall full | !(FullKey(keyPrefix, []) <= full) :: LogicalKey(keyPrefix, full) == full
  {
    if keyPrefix != [] {
      assert FullKey(keyPrefix, key)[|keyPrefix| + 1..] == key;
      assert FullKey(keyPrefix, []) == keyPrefix + [COLON];
    }
  }

  /** The interval of `index_page` selects exactly the keys whose logical key has the
      caller's prefix. */
  lemma PrefixRangeOfFullKeys(keyPrefix: Key, prefix: Key, key: Key)
    ensures var p, k := FullKey(keyPrefix, prefix), FullKey(keyPrefix, key);
            (k == p || Before(p, k)) && Before(k, UpperBound(p)) <==> prefix <= key
  {
    var p, k := FullKey(keyPrefix, prefix), FullKey(keyPrefix, key);
    PrefixRangeExact(p, k);
    if keyPrefix != [] {
      var n := |keyPrefix| + 1;
      assert p[n..] == prefix && k[n..] == key;
      if p <= k {
        assert k[..|p|] == p;
        assert key[..|prefix|] == k[n..|p|] == p[n..];
      }
      if prefix <= key {
        assert key == prefix + key[|prefix|..];
        assert k == p + key[|prefix|..];
      }
    }
  }

  /** Stripping the deployment prefix keeps the byte order. */
  lemma {:induction false} CommonPrefixKeepsOrder(p: Bytes, a: Bytes, b: Bytes)
    ensures Before(p + a, p + b) <==> Before(a, b)
    decreases |p|
  {
    if p == [] {
      assert p + a == a && p + b == b;
    } else {
      assert (p + a)[1..] == p[1..] + a && (p + b)[1..] == p[1..] + b;
      CommonPrefixKeepsOrder(p[1..], a, b);
    }
  }
}
