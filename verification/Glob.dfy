/** `SCAN ... MATCH` patterns: Redis's matcher, and the escaping that makes a key prefix
    match only itself. */
module Glob {
  import opened ByteStrings

  const STAR: TextByte := 42
  const QUESTION: TextByte := 63
  const OPEN: TextByte := 91
  const BACKSLASH: TextByte := 92
  const CLOSE: TextByte := 93
  const CARET: TextByte := 94
  const DASH: TextByte := 45
  const HASH: TextByte := 35

  /** The characters of a `[...]` class after its `[` (and `^`): whether `c` is one of them,
      and the pattern after the closing `]`. An unclosed class ends with the pattern. */
  function ClassMatch(p: Key, c: TextByte): (bool, Key) {
    if p == [] then (false, [])
    else if p[0] == BACKSLASH && |p| >= 2 then
      var (m, rest) := ClassMatch(p[2..], c);
      (m || p[1] == c, rest)
    else if p[0] == CLOSE then (false, p[1..])
    else if |p| >= 3 && p[1] == DASH then
      var (m, rest) := ClassMatch(p[3..], c);
      (m || p[0] <= c <= p[2] || p[2] <= c <= p[0], rest)
    else
      var (m, rest) := ClassMatch(p[1..], c);
      (m || p[0] == c, rest)
  }

  lemma {:induction false} ClassShrinks(p: Key, c: TextByte)
    ensures |ClassMatch(p, c).1| <= |p|
  {
    if p != [] && p[0] == BACKSLASH && |p| >= 2 {
      ClassShrinks(p[2..], c);
    } else if p != [] && p[0] != CLOSE {
      if |p| >= 3 && p[1] == DASH {
        ClassShrinks(p[3..], c);
      } else {
        ClassShrinks(p[1..], c);
      }
    }
  }

  /** The pattern `p` matches the whole of `t`. */
  predicate Match(p: Key, t: Key)
    decreases |p| + |t|
  {
    if p == [] then t == []
    else if p[0] == STAR then Match(p[1..], t) || (t != [] && Match(p, t[1..]))
    else if t == [] then false
    else if p[0] == QUESTION then Match(p[1..], t[1..])
    else if p[0] == OPEN then
      var negated := |p| >= 2 && p[1] == CARET;
      var body := if negated then p[2..] else p[1..];
      ClassShrinks(body, t[0]);
      var (m, rest) := ClassMatch(body, t[0]);
      m != negated && Match(rest, t[1..])
    else if p[0] == BACKSLASH && |p| >= 2 then p[1] == t[0] && Match(p[2..], t[1..])
    else p[0] == t[0] && Match(p[1..], t[1..])
  }

  predicate Special(c: TextByte) {
    c == STAR || c == QUESTION || c == OPEN || c == CLOSE || c == BACKSLASH
  }

  function Escape(s: Key): Key {
    if s == [] then []
    else (if Special(s[0]) then [BACKSLASH, s[0]] else [s[0]]) + Escape(s[1..])
  }

  lemma {:induction false} EscapeSnoc(s: Key, i: nat)
    requires i < |s|
    ensures Escape(s[..i + 1]) == Escape(s[..i]) + if Special(s[i]) then [BACKSLASH, s[i]] else [s[i]]
    decreases i
  {
    if i == 0 {
      assert s[..1][1..] == [];
    } else {
      EscapeSnoc(s[1..], i - 1);
      assert s[..i + 1][1..] == s[1..][..i] && s[..i][1..] == s[1..][..i - 1];
    }
  }

  /** `glob_escape`. */
  method GlobEscape(key: Key) returns (out: Key)
    ensures out == Escape(key)
  {
    out := [];
    for i := 0 to |key|
      invariant out == Escape(key[..i])
    {
      EscapeSnoc(key, i);
      if Special(key[i]) {
        out := out + [BACKSLASH];
      }
      out := out + [key[i]];
    }
    assert key[..|key|] == key;
  }

  lemma {:induction false} StarMatchesAll(t: Key)
    ensures Match([STAR], t)
  {
    if t == [] {
      assert Match([STAR][1..], t);
    } else {
      StarMatchesAll(t[1..]);
    }
  }

  /** The first character of an escaped text, as a pattern, matches itself only. */
  lemma EscapeHead(c: TextByte, p: Key, t: Key)
    ensures var head := if Special(c) then [BACKSLASH, c] else [c];
            Match(head + p, t) <==> t != [] && t[0] == c && Match(p, t[1..])
  {
    var head := if Special(c) then [BACKSLASH, c] else [c];
    assert (head + p)[|head|..] == p;
  }

  /** An escaped text followed by any pattern matches that text followed by what the pattern
      matches, and nothing else. */
  lemma {:induction false} EscapeIsLiteral(s: Key, p: Key, t: Key)
    ensures Match(Escape(s) + p, t) <==> s <= t && Match(p, t[|s|..])
    decreases |s|
  {
    if s == [] {
      assert Escape(s) + p == p && t[|s|..] == t;
    } else {
      var head := if Special(s[0]) then [BACKSLASH, s[0]] else [s[0]];
      assert Escape(s) + p == head + (Escape(s[1..]) + p);
      EscapeHead(s[0], Escape(s[1..]) + p, t);
      if t != [] {
        EscapeIsLiteral(s[1..], p, t[1..]);
        PrefixTail(s, t);
      }
    }
  }

  lemma PrefixTail(s: Key, t: Key)
    requires s != [] && t != []
    ensures s <= t <==> s[0] == t[0] && s[1..] <= t[1..]
    ensures s <= t ==> t[1..][|s| - 1..] == t[|s|..]
  {
    assert s == [s[0]] + s[1..] && t == [t[0]] + t[1..];
  }

  /** Glob escaping is exact: `escape(s)*` matches exactly the keys with prefix `s`. */
  lemma EscapedPrefixExact(s: Key, t: Key)
    ensures Match(Escape(s) + [STAR], t) <==> s <= t
  {
    EscapeIsLiteral(s, [STAR], t);
    if s <= t {
      StarMatchesAll(t[|s|..]);
    }
  }

  /** An escaped key matches only itself. */
  lemma EscapedKeyExact(s: Key, t: Key)
    ensures Match(Escape(s), t) <==> s == t
  {
    EscapeIsLiteral(s, [], t);
    assert Escape(s) + [] == Escape(s);
    if s <= t && t[|s|..] == [] {
      assert t == s + t[|s|..];
    }
  }

  /** The pattern of a scan page selects the keys whose logical key has the caller's prefix. */
  lemma ScanPatternExact(keyPrefix: Key, prefix: Key, key: Key)
    ensures Match(Escape(FullKey(keyPrefix, prefix)) + [STAR], FullKey(keyPrefix, key)) <==> prefix <= key
  {
    EscapedPrefixExact(FullKey(keyPrefix, prefix), FullKey(keyPrefix, key));
    PrefixRangeOfFullKeys(keyPrefix, prefix, key);
    PrefixRangeExact(FullKey(keyPrefix, prefix), FullKey(keyPrefix, key));
  }

  lemma ColonStarMatches(t: Key)
    ensures Match([COLON, STAR], t) <==> t != [] && t[0] == COLON
  {
    var p: Key := [COLON, STAR];
    assert p[1..] == [STAR];
    if t != [] {
      StarMatchesAll(t[1..]);
    }
  }

  lemma DataKeyShape(keyPrefix: Key, t: Key)
    requires keyPrefix != []
    ensures (exists key :: t == FullKey(keyPrefix, key)) <==>
            keyPrefix <= t && |t| > |keyPrefix| && t[|keyPrefix|] == COLON
  {
    var n := |keyPrefix|;
    if keyPrefix <= t && |t| > n && t[n] == COLON {
      assert t == FullKey(keyPrefix, t[n + 1..]);
    }
  }

  /** The backfill pattern `escape(prefix):*` selects every data key of the deployment and
      none of its index keys, which continue the prefix with `#`. */
  lemma BackfillPatternExact(keyPrefix: Key, t: Key)
    requires keyPrefix != []
    ensures Match(Escape(keyPrefix) + [COLON, STAR], t) <==> exists key :: t == FullKey(keyPrefix, key)
    ensures keyPrefix + [HASH] <= t ==> !Match(Escape(keyPrefix) + [COLON, STAR], t)
  {
    EscapeIsLiteral(keyPrefix, [COLON, STAR], t);
    DataKeyShape(keyPrefix, t);
    if keyPrefix <= t {
      ColonStarMatches(t[|keyPrefix|..]);
    }
    assert keyPrefix + [HASH] <= t ==> t[|keyPrefix|] == HASH;
  }
}
