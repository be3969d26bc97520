/** Listing through the key index: pages of `ZRANGEBYLEX` followed by a pipelined
    `GET`/`PTTL` per key, while anyone writes between and within the pages. */
module IndexListing {
  import opened ByteStrings
  import opened Options
  import opened Store

  /** An entry as the caller gets it: the value and the milliseconds it has left. */
  datatype Entry = Entry(value: Value, left: Option<int>)

  /** The pipelined replies for one key; the two commands may see different states. */
  datatype Answer = Answer(value: Option<Value>, pttl: int)

  function EntryOf(a: Answer): Option<Entry> {
    if a.value.None? then None
    else if a.pttl == -1 then Some(Entry(a.value.value, None))
    else if a.pttl >= 0 then Some(Entry(a.value.value, Some(a.pttl)))
    else None
  }

  /** The entries of the keys still there, under the caller's names. */
  function Kept(keyPrefix: Key, keys: seq<Key>, answers: seq<Answer>): seq<(Key, Entry)>
    requires |keys| == |answers|
    decreases |keys|
  {
    if keys == [] then []
    else
      var e := EntryOf(answers[0]);
      (if e.Some? then [(LogicalKey(keyPrefix, keys[0]), e.value)] else [])
      + Kept(keyPrefix, keys[1..], answers[1..])
  }

  function Missing(keys: seq<Key>, answers: seq<Answer>): seq<Key>
    requires |keys| == |answers|
    decreases |keys|
  {
    if keys == [] then []
    else (if EntryOf(answers[0]).None? then [keys[0]] else []) + Missing(keys[1..], answers[1..])
  }

  /** `fetch_entries`: split the keys into entries and the gone, which the caller prunes. */
  method FetchEntries(keyPrefix: Key, keys: seq<Key>, answers: seq<Answer>)
    returns (out: seq<(Key, Entry)>, gone: seq<Key>)
    requires |keys| == |answers|
    ensures out == Kept(keyPrefix, keys, answers)
    ensures gone == Missing(keys, answers)
  {
    out, gone := [], [];
    for i := 0 to |keys|
      invariant out + Kept(keyPrefix, keys[i..], answers[i..]) == Kept(keyPrefix, keys, answers)
      invariant gone + Missing(keys[i..], answers[i..]) == Missing(keys, answers)
    {
      assert keys[i..][1..] == keys[i + 1..] && answers[i..][1..] == answers[i + 1..];
      match EntryOf(answers[i])
      case Some(e) => out := out + [(LogicalKey(keyPrefix, keys[i]), e)];
      case None => gone := gone + [keys[i]];
    }
  }

  /** The keys to prune are exactly those whose answers make no entry. */
  lemma {:induction false} MissingExactly(keys: seq<Key>, answers: seq<Answer>, k: Key)
    requires |keys| == |answers|
    ensures k in Missing(keys, answers) <==>
            exists i :: 0 <= i < |keys| && keys[i] == k && EntryOf(answers[i]).None?
    decreases |keys|
  {
    if keys != [] {
      MissingExactly(keys[1..], answers[1..], k);
      if i :| 0 < i < |keys| && keys[i] == k && EntryOf(answers[i]).None? {
        assert keys[1..][i - 1] == k && answers[1..][i - 1] == answers[i];
      }
      if i :| 0 <= i < |keys[1..]| && keys[1..][i] == k && EntryOf(answers[1..][i]).None? {
        assert keys[i + 1] == k && answers[i + 1] == answers[1..][i];
      }
    }
  }

  /** The interval of `index_page`: from the prefix, or after the cursor, up to the prefix
      followed by 0xFF. */
  predicate InWindow(k: Key, p: Key, after: Option<Key>) {
    && (match after case None => k == p || Before(p, k) case Some(a) => Before(a, k))
    && Before(k, UpperBound(p))
  }

  /** What `ZRANGEBYLEX ... LIMIT 0 n` answers: the first `n` members in the interval. */
  ghost predicate FirstInWindow(range: seq<Key>, index: set<Key>, p: Key, after: Option<Key>, n: nat) {
    && |range| <= n
    && Ascending(range)
    && (forall i :: 0 <= i < |range| ==> range[i] in index && InWindow(range[i], p, after))
    && (forall k :: k in index && InWindow(k, p, after) && k !in range ==>
          |range| == n && forall i :: 0 <= i < n ==> Before(range[i], k))
  }

  /** One index page: when the range was read, its reply, and when each key's `GET` and
      `PTTL` were served, as instants of a timeline of server states. */
  datatype IndexPage = IndexPage(limit: nat, readAt: nat, range: seq<Key>, getAt: seq<nat>, ttlAt: seq<nat>)
  {
    function Keys(): seq<Key> {
      if |range| > limit then range[..limit] else range
    }

    /** The cursor to the next page: the last key of this one, when there is more. */
    function Next(): Option<Key>
      requires limit >= 1
    {
      if |range| > limit then Some(range[limit - 1]) else None
    }

    ghost predicate Valid(states: seq<Db>, p: Key, after: Option<Key>) {
      && limit >= 1 && readAt < |states|
      && FirstInWindow(range, states[readAt].index, p, after, limit + 1)
      && |getAt| == |ttlAt| == |Keys()|
      && forall i :: 0 <= i < |getAt| ==> readAt <= getAt[i] <= ttlAt[i] < |states|
    }

    ghost function Answers(states: seq<Db>): seq<Answer>
      requires |getAt| == |ttlAt| == |Keys()|
      requires forall i :: 0 <= i < |getAt| ==> getAt[i] < |states| && ttlAt[i] < |states|
    {
      seq(|Keys()|, i requires 0 <= i < |Keys()| =>
        Answer(states[getAt[i]].Get(Keys()[i]), states[ttlAt[i]].Pttl(Keys()[i])))
    }
  }

  /** How much a page returns: the first keys of what the interval held when it was read, no
      more than the limit; it is full and ends at its cursor when it has one, and it has one
      exactly if the interval held more. */
  lemma PageFills(states: seq<Db>, page: IndexPage, p: Key, after: Option<Key>)
    requires page.Valid(states, p, after)
    ensures |page.Keys()| <= page.limit
    ensures forall k :: k in page.Keys() ==> k in states[page.readAt].index && InWindow(k, p, after)
    ensures forall k, x :: x in page.Keys() && k in states[page.readAt].index && InWindow(k, p, after) ==>
              k in page.Keys() || Before(x, k)
    ensures page.Next().Some? ==> |page.Keys()| == page.limit && page.Next().value == page.Keys()[page.limit - 1]
    ensures page.Next().Some? <==>
            exists k :: k in states[page.readAt].index && InWindow(k, p, after) && k !in page.Keys()
  {
    var keys := page.Keys();
    assert forall i :: 0 <= i < |keys| ==> keys[i] == page.range[i];
    if page.Next().Some? {
      var k := page.range[page.limit];
      if k in keys {
        var i :| 0 <= i < |keys| && keys[i] == k;
        BeforeIrreflexive(k);
        assert false;
      }
    }
    forall k, x | k in states[page.readAt].index && InWindow(k, p, after) && k !in keys && x in keys
      ensures Before(x, k)
    {
      var i :| 0 <= i < |keys| && keys[i] == x;
      if k in page.range {
        var j :| 0 <= j < |page.range| && page.range[j] == k;
        assert i < j;
      }
    }
  }

  /** A finished pass: each page takes up the cursor of the one before, the last has none.
      Pages may have different limits. The timeline is arbitrary: anything may happen to
      data and index from one state to the next. */
  ghost predicate FinishedPass(states: seq<Db>, pages: seq<IndexPage>, p: Key, after: Option<Key>)
    decreases |pages|
  {
    && pages != []
    && pages[0].Valid(states, p, after)
    && (if pages[0].Next().None? then |pages| == 1
        else FinishedPass(states, pages[1..], p, pages[0].Next()))
  }

  /** What the caller receives over the pass. */
  ghost function Emitted(states: seq<Db>, keyPrefix: Key, pages: seq<IndexPage>, p: Key, after: Option<Key>)
    : seq<(Key, Entry)>
    requires FinishedPass(states, pages, p, after)
    decreases |pages|
  {
    Kept(keyPrefix, pages[0].Keys(), pages[0].Answers(states))
    + if pages[0].Next().None? then [] else Emitted(states, keyPrefix, pages[1..], p, pages[0].Next())
  }

  ghost predicate AscendingEntries(es: seq<(Key, Entry)>) {
    forall i, j :: 0 <= i < j < |es| ==> Before(es[i].0, es[j].0)
  }

  ghost predicate Ours(keyPrefix: Key, k: Key) {
    FullKey(keyPrefix, []) <= k
  }

  /** Naming keys as the caller does keeps their order. */
  lemma LogicalKeepsOrder(keyPrefix: Key, a: Key, b: Key)
    requires Ours(keyPrefix, a) && Ours(keyPrefix, b)
    ensures Before(LogicalKey(keyPrefix, a), LogicalKey(keyPrefix, b)) <==> Before(a, b)
    ensures FullKey(keyPrefix, LogicalKey(keyPrefix, a)) == a
  {
    KeyNamesRoundTrip(keyPrefix, []);
    if keyPrefix != [] {
      var n := |keyPrefix| + 1;
      var p: Bytes := keyPrefix + [COLON];
      assert a == p + a[n..] && b == p + b[n..];
      CommonPrefixKeepsOrder(p, a[n..], b[n..]);
    }
  }

  lemma {:induction false} KeptAscending(keyPrefix: Key, keys: seq<Key>, answers: seq<Answer>)
    requires |keys| == |answers| && Ascending(keys)
    requires forall i :: 0 <= i < |keys| ==> Ours(keyPrefix, keys[i])
    ensures AscendingEntries(Kept(keyPrefix, keys, answers))
    ensures forall e :: e in Kept(keyPrefix, keys, answers) ==> FullKey(keyPrefix, e.0) in keys
    decreases |keys|
  {
    if keys != [] {
      KeptAscending(keyPrefix, keys[1..], answers[1..]);
      var rest := Kept(keyPrefix, keys[1..], answers[1..]);
      LogicalKeepsOrder(keyPrefix, keys[0], keys[0]);
      forall e | e in rest
        ensures Before(LogicalKey(keyPrefix, keys[0]), e.0)
      {
        var full := FullKey(keyPrefix, e.0);
        var i :| 0 <= i < |keys[1..]| && keys[1..][i] == full;
        assert keys[i + 1] == full;
        KeyNamesRoundTrip(keyPrefix, e.0);
        LogicalKeepsOrder(keyPrefix, keys[0], full);
      }
    }
  }

  /** Under a cursor of this pass, the interval holds only keys with the prefix. */
  lemma WindowIsOurs(keyPrefix: Key, prefix: Key, after: Option<Key>, k: Key)
    requires var p := FullKey(keyPrefix, prefix); InWindow(k, p, after) && (after.Some? ==> p <= after.value)
    ensures FullKey(keyPrefix, prefix) <= k && Ours(keyPrefix, k)
  {
    var p := FullKey(keyPrefix, prefix);
    if after.Some? {
      PrefixRangeExact(p, after.value);
      if after.value != p {
        BeforeTransitive(p, after.value, k);
      }
    }
    PrefixRangeExact(p, k);
  }

  ghost predicate PassContext(keyPrefix: Key, prefix: Key, after: Option<Key>) {
    after.Some? ==> FullKey(keyPrefix, prefix) <= after.value
  }

  lemma PageContext(states: seq<Db>, page: IndexPage, keyPrefix: Key, prefix: Key, after: Option<Key>)
    requires page.Valid(states, FullKey(keyPrefix, prefix), after) && PassContext(keyPrefix, prefix, after)
    ensures forall i :: 0 <= i < |page.range| ==> Ours(keyPrefix, page.range[i])
    ensures Ascending(page.Keys())
    ensures PassContext(keyPrefix, prefix, page.Next())
  {
    forall i | 0 <= i < |page.range|
      ensures Ours(keyPrefix, page.range[i]) && FullKey(keyPrefix, prefix) <= page.range[i]
    {
      WindowIsOurs(keyPrefix, prefix, after, page.range[i]);
    }
  }

  ghost predicate AllInWindow(keyPrefix: Key, es: seq<(Key, Entry)>, p: Key, after: Option<Key>) {
    forall i :: 0 <= i < |es| ==>
      Ours(keyPrefix, FullKey(keyPrefix, es[i].0)) && InWindow(FullKey(keyPrefix, es[i].0), p, after)
  }

  lemma AscendingAppend(a: seq<(Key, Entry)>, b: seq<(Key, Entry)>)
    requires AscendingEntries(a) && AscendingEntries(b)
    requires forall i, j :: 0 <= i < |a| && 0 <= j < |b| ==> Before(a[i].0, b[j].0)
    ensures AscendingEntries(a + b)
  {
  }

  lemma PageAscending(states: seq<Db>, keyPrefix: Key, prefix: Key, page: IndexPage, after: Option<Key>)
    requires page.Valid(states, FullKey(keyPrefix, prefix), after) && PassContext(keyPrefix, prefix, after)
    ensures var es := Kept(keyPrefix, page.Keys(), page.Answers(states));
            AscendingEntries(es) && AllInWindow(keyPrefix, es, FullKey(keyPrefix, prefix), after)
  {
    PageContext(states, page, keyPrefix, prefix, after);
    var keys, answers := page.Keys(), page.Answers(states);
    KeptAscending(keyPrefix, keys, answers);
    var es := Kept(keyPrefix, keys, answers);
    forall i | 0 <= i < |es|
      ensures Ours(keyPrefix, FullKey(keyPrefix, es[i].0)) &&
              InWindow(FullKey(keyPrefix, es[i].0), FullKey(keyPrefix, prefix), after)
    {
      assert es[i] in es;
      var j :| 0 <= j < |keys| && keys[j] == FullKey(keyPrefix, es[i].0);
      assert page.range[j] == keys[j];
    }
  }

  /** Keys come out strictly ascending over the whole pass, so none twice. */
  lemma {:induction false} PassAscending(states: seq<Db>, keyPrefix: Key, prefix: Key, pages: seq<IndexPage>,
                                         after: Option<Key>)
    requires FinishedPass(states, pages, FullKey(keyPrefix, prefix), after) && PassContext(keyPrefix, prefix, after)
    ensures var es := Emitted(states, keyPrefix, pages, FullKey(keyPrefix, prefix), after);
            AscendingEntries(es) && AllInWindow(keyPrefix, es, FullKey(keyPrefix, prefix), after)
    decreases |pages|
  {
    var p, page := FullKey(keyPrefix, prefix), pages[0];
    PageAscending(states, keyPrefix, prefix, page, after);
    if page.Next().Some? {
      PageContext(states, page, keyPrefix, prefix, after);
      PassAscending(states, keyPrefix, prefix, pages[1..], page.Next());
      PagesJoin(states, keyPrefix, prefix, page, after, Emitted(states, keyPrefix, pages[1..], p, page.Next()));
    }
  }

  /** What comes after a page's cursor comes after everything on the page. */
  lemma PagesJoin(states: seq<Db>, keyPrefix: Key, prefix: Key, page: IndexPage, after: Option<Key>,
                  rest: seq<(Key, Entry)>)
    requires page.Valid(states, FullKey(keyPrefix, prefix), after) && PassContext(keyPrefix, prefix, after)
    requires page.Next().Some?
    requires AscendingEntries(rest) && AllInWindow(keyPrefix, rest, FullKey(keyPrefix, prefix), page.Next())
    ensures var es := Kept(keyPrefix, page.Keys(), page.Answers(states)) + rest;
            AscendingEntries(es) && AllInWindow(keyPrefix, es, FullKey(keyPrefix, prefix), after)
  {
    var first := Kept(keyPrefix, page.Keys(), page.Answers(states));
    PageAscending(states, keyPrefix, prefix, page, after);
    forall j | 0 <= j < |rest|
      ensures InWindow(FullKey(keyPrefix, rest[j].0), FullKey(keyPrefix, prefix), after)
      ensures forall i :: 0 <= i < |first| ==> Before(first[i].0, rest[j].0)
    {
      EntryJoins(states, keyPrefix, prefix, page, after, rest[j]);
    }
    AscendingAppend(first, rest);
  }

  lemma EntryJoins(states: seq<Db>, keyPrefix: Key, prefix: Key, page: IndexPage, after: Option<Key>, e: (Key, Entry))
    requires page.Valid(states, FullKey(keyPrefix, prefix), after) && PassContext(keyPrefix, prefix, after)
    requires page.Next().Some?
    requires Ours(keyPrefix, FullKey(keyPrefix, e.0)) &&
             InWindow(FullKey(keyPrefix, e.0), FullKey(keyPrefix, prefix), page.Next())
    ensures InWindow(FullKey(keyPrefix, e.0), FullKey(keyPrefix, prefix), after)
    ensures var first := Kept(keyPrefix, page.Keys(), page.Answers(states));
            forall i :: 0 <= i < |first| ==> Before(first[i].0, e.0)
  {
    var keys := page.Keys();
    var first := Kept(keyPrefix, keys, page.Answers(states));
    PageContext(states, page, keyPrefix, prefix, after);
    KeptAscending(keyPrefix, keys, page.Answers(states));
    var last := page.Next().value;
    assert keys[|keys| - 1] == last;
    JoinsAfter(keyPrefix, FullKey(keyPrefix, prefix), after, keys, last, first, e);
    assert forall i :: 0 <= i < |first| ==> first[i] in first;
  }

  lemma JoinsAfter(keyPrefix: Key, p: Key, after: Option<Key>, keys: seq<Key>, last: Key, first: seq<(Key, Entry)>,
                   e: (Key, Entry))
    requires Ascending(keys) && keys != [] && last == keys[|keys| - 1] && InWindow(last, p, after)
    requires forall i :: 0 <= i < |keys| ==> Ours(keyPrefix, keys[i])
    requires forall d :: d in first ==> FullKey(keyPrefix, d.0) in keys
    requires Ours(keyPrefix, FullKey(keyPrefix, e.0)) && InWindow(FullKey(keyPrefix, e.0), p, Some(last))
    ensures InWindow(FullKey(keyPrefix, e.0), p, after)
    ensures forall d :: d in first ==> Before(d.0, e.0)
  {
    var full := FullKey(keyPrefix, e.0);
    KeyNamesRoundTrip(keyPrefix, e.0);
    if after.Some? {
      BeforeTransitive(after.value, last, full);
    } else if last != p {
      BeforeTransitive(p, last, full);
    }
    forall d | d in first
      ensures Before(d.0, e.0)
    {
      var x := FullKey(keyPrefix, d.0);
      KeyNamesRoundTrip(keyPrefix, d.0);
      var i :| 0 <= i < |keys| && keys[i] == x;
      if x != last {
        assert i != |keys| - 1;
        BeforeTransitive(x, last, full);
      }
      LogicalKeepsOrder(keyPrefix, x, full);
    }
  }

  lemma {:induction false} KeptHolds(keyPrefix: Key, keys: seq<Key>, answers: seq<Answer>, i: nat)
    requires |keys| == |answers| && i < |keys| && EntryOf(answers[i]).Some?
    ensures (LogicalKey(keyPrefix, keys[i]), EntryOf(answers[i]).value) in Kept(keyPrefix, keys, answers)
    decreases |keys|
  {
    if i > 0 {
      KeptHolds(keyPrefix, keys[1..], answers[1..], i - 1);
    }
  }

  ghost predicate Throughout(states: seq<Db>, k: Key) {
    forall t :: 0 <= t < |states| ==> states[t].Live(k) && k in states[t].index
  }

  ghost predicate Mentions(es: seq<(Key, Entry)>, key: Key) {
    exists i :: 0 <= i < |es| && es[i].0 == key
  }

  lemma MentionsAppend(a: seq<(Key, Entry)>, b: seq<(Key, Entry)>, key: Key)
    requires Mentions(a, key) || Mentions(b, key)
    ensures Mentions(a + b, key)
  {
    if Mentions(a, key) {
      var i :| 0 <= i < |a| && a[i].0 == key;
      assert (a + b)[i].0 == key;
    } else {
      var i :| 0 <= i < |b| && b[i].0 == key;
      assert (a + b)[|a| + i].0 == key;
    }
  }

  /** A page returns a steady key of its interval, or leaves it to the pages after it. */
  lemma PageComplete(states: seq<Db>, keyPrefix: Key, p: Key, page: IndexPage, after: Option<Key>, k: Key)
    requires page.Valid(states, p, after) && Throughout(states, k) && InWindow(k, p, after)
    ensures Mentions(Kept(keyPrefix, page.Keys(), page.Answers(states)), LogicalKey(keyPrefix, k)) ||
            (page.Next().Some? && InWindow(k, p, page.Next()))
  {
    var keys, answers := page.Keys(), page.Answers(states);
    if k in keys {
      var i :| 0 <= i < |keys| && keys[i] == k;
      KeptHolds(keyPrefix, keys, answers, i);
      var es := Kept(keyPrefix, keys, answers);
      var j :| 0 <= j < |es| && es[j] == (LogicalKey(keyPrefix, k), EntryOf(answers[i]).value);
    } else if k in page.range {
      var i :| 0 <= i < |page.range| && page.range[i] == k;
      assert i == page.limit;
    }
  }

  /** A key alive and indexed throughout comes out, wherever the cursor falls and whether
      or not the cursor's own key is still there. */
  lemma {:induction false} PassComplete(states: seq<Db>, keyPrefix: Key, p: Key, pages: seq<IndexPage>,
                                        after: Option<Key>, k: Key)
    requires FinishedPass(states, pages, p, after) && Throughout(states, k) && InWindow(k, p, after)
    ensures Mentions(Emitted(states, keyPrefix, pages, p, after), LogicalKey(keyPrefix, k))
    decreases |pages|
  {
    var page := pages[0];
    PageComplete(states, keyPrefix, p, page, after, k);
    var first := Kept(keyPrefix, page.Keys(), page.Answers(states));
    if page.Next().Some? {
      var rest := Emitted(states, keyPrefix, pages[1..], p, page.Next());
      if !Mentions(first, LogicalKey(keyPrefix, k)) {
        PassComplete(states, keyPrefix, p, pages[1..], page.Next(), k);
      }
      MentionsAppend(first, rest, LogicalKey(keyPrefix, k));
    } else {
      assert first + [] == first;
    }
  }

  ghost predicate Once(es: seq<(Key, Entry)>, key: Key) {
    exists i :: 0 <= i < |es| && es[i].0 == key && forall j :: 0 <= j < |es| && j != i ==> es[j].0 != key
  }

  lemma AscendingMentionsOnce(es: seq<(Key, Entry)>, key: Key)
    requires AscendingEntries(es) && Mentions(es, key)
    ensures Once(es, key)
  {
    var i :| 0 <= i < |es| && es[i].0 == key;
    BeforeIrreflexive(key);
    assert forall j :: 0 <= j < |es| && j != i ==> es[j].0 != key;
  }

  /** Pagination under concurrent writes: over every finished index pass, whatever happens
      between and within its pages, the keys ascend strictly and have the prefix, and a key
      with the prefix that is alive and indexed throughout comes out exactly once. */
  lemma IndexPassIsSound(states: seq<Db>, keyPrefix: Key, prefix: Key, pages: seq<IndexPage>)
    requires FinishedPass(states, pages, FullKey(keyPrefix, prefix), None)
    ensures var es := Emitted(states, keyPrefix, pages, FullKey(keyPrefix, prefix), None);
            && AscendingEntries(es)
            && (forall i :: 0 <= i < |es| ==> prefix <= es[i].0)
            && (forall key :: prefix <= key && Throughout(states, FullKey(keyPrefix, key)) ==> Once(es, key))
  {
    var p := FullKey(keyPrefix, prefix);
    var es := Emitted(states, keyPrefix, pages, p, None);
    PassAscending(states, keyPrefix, prefix, pages, None);
    forall i | 0 <= i < |es|
      ensures prefix <= es[i].0
    {
      PrefixRangeOfFullKeys(keyPrefix, prefix, es[i].0);
    }
    forall key | prefix <= key && Throughout(states, FullKey(keyPrefix, key))
      ensures Once(es, key)
    {
      PrefixRangeOfFullKeys(keyPrefix, prefix, key);
      KeyNamesRoundTrip(keyPrefix, key);
      PassComplete(states, keyPrefix, p, pages, None, FullKey(keyPrefix, key));
      AscendingMentionsOnce(es, key);
    }
  }
}
