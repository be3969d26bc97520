/** Which patterns match a text with anything appended: the exact condition, for every
    pattern Redis's matcher takes. */
module OpenPatterns {
  import opened ByteStrings
  import opened Glob

  // ---- Patterns token by token ----

  /** The pattern after its first token, which is not a star. */
  function Rest(p: Key): Key
    requires p != [] && p[0] != STAR
  {
    if p[0] == OPEN then ClassMatch(if |p| >= 2 && p[1] == CARET then p[2..] else p[1..], 0).1
    else if p[0] == BACKSLASH && |p| >= 2 then p[2..]
    else p[1..]
  }

  /** The first token takes the character. */
  predicate Takes(p: Key, c: TextByte)
    requires p != [] && p[0] != STAR
  {
    if p[0] == QUESTION then true
    else if p[0] == OPEN then
      var negated := |p| >= 2 && p[1] == CARET;
      ClassMatch(if negated then p[2..] else p[1..], c).0 != negated
    else if p[0] == BACKSLASH && |p| >= 2 then p[1] == c
    else p[0] == c
  }

  predicate TakesAll(p: Key)
    requires p != [] && p[0] != STAR
  {
    forall c: int :: 0 <= c < 255 ==> Takes(p, c)
  }

  lemma RestShrinks(p: Key)
    requires p != [] && p[0] != STAR
    ensures |Rest(p)| < |p|
  {
    if p[0] == OPEN {
      ClassShrinks(if |p| >= 2 && p[1] == CARET then p[2..] else p[1..], 0);
    }
  }

  /** Where a class ends does not depend on the character. */
  lemma {:induction false} ClassRest(p: Key, a: TextByte, b: TextByte)
    ensures ClassMatch(p, a).1 == ClassMatch(p, b).1
  {
    if p != [] && p[0] == BACKSLASH && |p| >= 2 {
      ClassRest(p[2..], a, b);
    } else if p != [] && p[0] != CLOSE {
      if |p| >= 3 && p[1] == DASH {
        ClassRest(p[3..], a, b);
      } else {
        ClassRest(p[1..], a, b);
      }
    }
  }

  lemma MatchFirst(p: Key, t: Key)
    requires p != [] && p[0] != STAR
    ensures Match(p, t) <==> t != [] && Takes(p, t[0]) && Match(Rest(p), t[1..])
  {
    if t != [] && p[0] == OPEN {
      var body := if |p| >= 2 && p[1] == CARET then p[2..] else p[1..];
      ClassShrinks(body, t[0]);
      ClassRest(body, t[0], 0);
    }
  }

  /** A star takes some of the text and leaves the rest to the pattern after it. */
  lemma {:induction false} StarTakes(p: Key, t: Key, n: nat)
    requires p != [] && p[0] == STAR && n <= |t| && Match(p[1..], t[n..])
    ensures Match(p, t)
    decreases n
  {
    if n == 0 {
      assert t[0..] == t;
    } else {
      assert t[1..][n - 1..] == t[n..];
      StarTakes(p, t[1..], n - 1);
    }
  }

  lemma {:induction false} StarTook(p: Key, t: Key) returns (n: nat)
    requires p != [] && p[0] == STAR && Match(p, t)
    ensures n <= |t| && Match(p[1..], t[n..])
    decreases |t|
  {
    if Match(p[1..], t) {
      n := 0;
      assert t[0..] == t;
    } else {
      var m := StarTook(p, t[1..]);
      n := m + 1;
      assert t[1..][m..] == t[n..];
    }
  }

  // ---- The condition ----

  /** Only stars and tokens that take every character. */
  predicate AnyTail(p: Key)
    decreases |p|
  {
    p == [] ||
    if p[0] == STAR then AnyTail(p[1..])
    else
      RestShrinks(p);
      TakesAll(p) && AnyTail(Rest(p))
  }

  /** The pattern has a star, and every token after its last star takes every character. */
  predicate OpenEnded(p: Key)
    decreases |p|
  {
    p != [] &&
    if p[0] == STAR then AnyTail(p[1..]) || OpenEnded(p[1..])
    else
      RestShrinks(p);
      OpenEnded(Rest(p))
  }

  // ---- It is enough ----

  lemma {:induction false} LengthDecides(p: Key, s: Key, t: Key)
    requires AnyTail(p) && Match(p, s) && |s| == |t|
    ensures Match(p, t)
    decreases |p|
  {
    if p != [] {
      if p[0] == STAR {
        var n := StarTook(p, s);
        LengthDecides(p[1..], s[n..], t[n..]);
        StarTakes(p, t, n);
      } else {
        RestShrinks(p);
        MatchFirst(p, s);
        MatchFirst(p, t);
        LengthDecides(Rest(p), s[1..], t[1..]);
      }
    }
  }

  /** What an open-ended pattern matches, it matches with anything appended. */
  lemma {:induction false} MatchGrows(p: Key, t: Key, u: Key)
    requires OpenEnded(p) && Match(p, t)
    ensures Match(p, t + u)
    decreases |p|
  {
    if p[0] == STAR {
      var n := StarTook(p, t);
      if AnyTail(p[1..]) {
        LengthDecides(p[1..], t[n..], (t + u)[n + |u|..]);
        StarTakes(p, t + u, n + |u|);
      } else {
        MatchGrows(p[1..], t[n..], u);
        assert (t + u)[n..] == t[n..] + u;
        StarTakes(p, t + u, n);
      }
    } else {
      RestShrinks(p);
      MatchFirst(p, t);
      MatchGrows(Rest(p), t[1..], u);
      assert (t + u)[1..] == t[1..] + u;
      MatchFirst(p, t + u);
    }
  }

  // ---- It is needed ----

  predicate Starless(p: Key)
    decreases |p|
  {
    p == [] ||
    (p[0] != STAR &&
     (RestShrinks(p);
      Starless(Rest(p))))
  }

  lemma {:induction false} StarlessLength(p: Key, t: Key)
    requires Starless(p) && Match(p, t)
    ensures |t| <= |p|
    decreases |p|
  {
    if p != [] {
      RestShrinks(p);
      MatchFirst(p, t);
      StarlessLength(Rest(p), t[1..]);
    }
  }

  /** Some token of the pattern does not take the character. */
  predicate Rejects(p: Key, c: TextByte)
    requires Starless(p)
    decreases |p|
  {
    p != [] &&
    (RestShrinks(p);
     !Takes(p, c) || Rejects(Rest(p), c))
  }

  ghost predicate Only(t: Key, c: TextByte) {
    forall i :: 0 <= i < |t| ==> t[i] == c
  }

  lemma {:induction false} RejectsOnly(p: Key, t: Key, c: TextByte)
    requires Starless(p) && Rejects(p, c) && Only(t, c)
    ensures !Match(p, t)
    decreases |p|
  {
    RestShrinks(p);
    MatchFirst(p, t);
    if t != [] && Takes(p, c) {
      RejectsOnly(Rest(p), t[1..], c);
    }
  }

  lemma {:induction false} SomeRejected(p: Key) returns (c: TextByte)
    requires Starless(p) && !AnyTail(p)
    ensures Rejects(p, c)
    decreases |p|
  {
    RestShrinks(p);
    if !TakesAll(p) {
      var x: int :| 0 <= x < 255 && !Takes(p, x);
      c := x;
    } else {
      c := SomeRejected(Rest(p));
    }
  }

  /** A character that a token after the last star rejects, if there is a star. */
  predicate Blocks(p: Key, c: TextByte)
    decreases |p|
  {
    if Starless(p) then true
    else if p[0] == STAR then if Starless(p[1..]) then Rejects(p[1..], c) else Blocks(p[1..], c)
    else
      RestShrinks(p);
      Blocks(Rest(p), c)
  }

  lemma {:induction false} SomeBlocked(p: Key) returns (c: TextByte)
    requires !OpenEnded(p)
    ensures Blocks(p, c)
    decreases |p|
  {
    if Starless(p) {
      c := 0;
    } else if p[0] == STAR {
      if Starless(p[1..]) {
        c := SomeRejected(p[1..]);
      } else {
        c := SomeBlocked(p[1..]);
      }
    } else {
      RestShrinks(p);
      c := SomeBlocked(Rest(p));
    }
  }

  /** The last `n` characters of the text, or all of a shorter one. */
  ghost predicate EndsIn(t: Key, c: TextByte, n: nat) {
    forall i :: 0 <= i < |t| && |t| - n <= i ==> t[i] == c
  }

  lemma {:induction false} BlockedEnd(p: Key, t: Key, c: TextByte)
    requires !Starless(p) && Blocks(p, c) && EndsIn(t, c, |p|)
    ensures !Match(p, t)
    decreases |p|
  {
    if Match(p, t) {
      if p[0] == STAR {
        var n := StarTook(p, t);
        if Starless(p[1..]) {
          StarlessLength(p[1..], t[n..]);
          RejectsOnly(p[1..], t[n..], c);
        } else {
          BlockedEnd(p[1..], t[n..], c);
        }
      } else {
        RestShrinks(p);
        MatchFirst(p, t);
        BlockedEnd(Rest(p), t[1..], c);
      }
    }
  }

  /** The exact condition: a pattern matches a text with anything at all appended if and only
      if it matches the text and is open-ended. */
  lemma MatchesExtensionsIff(p: Key, t: Key)
    ensures (forall u :: Match(p, t + u)) <==> Match(p, t) && OpenEnded(p)
  {
    if OpenEnded(p) {
      if Match(p, t) {
        forall u
          ensures Match(p, t + u)
        {
          MatchGrows(p, t, u);
        }
      }
    } else {
      var c := SomeBlocked(p);
      var u: Key := seq(|p| + 1, _ => c);
      if Starless(p) {
        if Match(p, t + u) {
          StarlessLength(p, t + u);
        }
      } else {
        BlockedEnd(p, t + u, c);
      }
      assert !Match(p, t + u);
    }
    assert t + [] == t;
    assert Match(p, t + []) <==> Match(p, t);
  }
}
