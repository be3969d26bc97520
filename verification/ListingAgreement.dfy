/** The two ways of listing agree: where nothing changes and every live key is indexed, an
    index pass and a scan pass return the same entries, for every prefix and every limit. */
module ListingAgreement {
  import opened ByteStrings
  import opened Options
  import opened Store
  import opened Coverage
  import opened IndexListing
  import opened ScanListing
  import Glob

  function AnswerAt(db: Db, k: Key): Answer {
    Answer(db.Get(k), db.Pttl(k))
  }

  function AnswersAt(db: Db, keys: seq<Key>): seq<Answer> {
    seq(|keys|, i requires 0 <= i < |keys| => AnswerAt(db, keys[i]))
  }

  /** What a listing should return: the live keys with the prefix, under their own names,
      with what they hold. */
  function Listing(db: Db, keyPrefix: Key, prefix: Key): set<(Key, Entry)> {
    set k | k in db.data && db.Live(k) && FullKey(keyPrefix, prefix) <= k ::
      (LogicalKey(keyPrefix, k), LiveEntry(db, k))
  }

  function LiveEntry(db: Db, k: Key): Entry
    requires db.Live(k)
  {
    EntryOf(AnswerAt(db, k)).value
  }

  /** Fetching in an unchanging state returns the live ones of the keys, as they are. */
  lemma {:induction false} FetchExact(db: Db, keyPrefix: Key, keys: seq<Key>, answers: seq<Answer>)
    requires |keys| == |answers|
    requires forall i :: 0 <= i < |keys| ==> answers[i] == AnswerAt(db, keys[i])
    ensures forall e :: e in Kept(keyPrefix, keys, answers) <==>
              exists i :: 0 <= i < |keys| && db.Live(keys[i]) &&
                  e == (LogicalKey(keyPrefix, keys[i]), LiveEntry(db, keys[i]))
    decreases |keys|
  {
    if keys != [] {
      FetchExact(db, keyPrefix, keys[1..], answers[1..]);
      forall e
        ensures e in Kept(keyPrefix, keys, answers) <==>
                exists i :: 0 <= i < |keys| && db.Live(keys[i]) &&
                    e == (LogicalKey(keyPrefix, keys[i]), LiveEntry(db, keys[i]))
      {
        if e in Kept(keyPrefix, keys[1..], answers[1..]) {
          var i :| 0 <= i < |keys[1..]| && db.Live(keys[1..][i]) &&
              e == (LogicalKey(keyPrefix, keys[1..][i]), LiveEntry(db, keys[1..][i]));
          assert keys[i + 1] == keys[1..][i];
        }
        if i :| 0 < i < |keys| && db.Live(keys[i]) && e == (LogicalKey(keyPrefix, keys[i]), LiveEntry(db, keys[i])) {
          assert keys[1..][i - 1] == keys[i];
        }
      }
    }
  }

  /** In an unchanging state the prune after a page drops exactly the page's stale entries. */
  lemma PruneDropsTheStale(db: Db, keys: seq<Key>, k: Key)
    ensures var pruned := PruneScript(db, Missing(keys, AnswersAt(db, keys))).0;
            && (k in pruned.index <==> k in db.index && !(k in keys && !db.Live(k)))
            && (k in pruned.scores <==> k in db.scores && !(k in keys && !db.Live(k)))
            && pruned.data == db.data
  {
    MissingExactly(keys, AnswersAt(db, keys), k);
    assert forall i :: 0 <= i < |keys| ==> (EntryOf(AnswersAt(db, keys)[i]).None? <==> !db.Live(keys[i]));
  }

  // ---- The index pass ----

  /** Nothing but the index changes, and it never loses a live key: prunes may run. */
  ghost predicate Quiescent(db: Db, states: seq<Db>) {
    forall t :: 0 <= t < |states| ==> states[t].data == db.data && states[t].now == db.now && Covers(states[t])
  }

  /** The entry of some live key. */
  ghost predicate OfLiveKey(db: Db, keyPrefix: Key, e: (Key, Entry)) {
    exists k :: db.Live(k) && e == (LogicalKey(keyPrefix, k), LiveEntry(db, k))
  }

  lemma PageEntriesAreLive(db: Db, states: seq<Db>, keyPrefix: Key, page: IndexPage, p: Key, after: Option<Key>)
    requires page.Valid(states, p, after) && Quiescent(db, states)
    ensures forall e :: e in Kept(keyPrefix, page.Keys(), page.Answers(states)) ==> OfLiveKey(db, keyPrefix, e)
  {
    var keys, answers := page.Keys(), page.Answers(states);
    assert forall i :: 0 <= i < |keys| ==> answers[i] == AnswerAt(db, keys[i]);
    FetchExact(db, keyPrefix, keys, answers);
  }

  /** Every entry of the pass is the entry of a live key. */
  lemma {:induction false} EmittedAreLive(db: Db, states: seq<Db>, keyPrefix: Key, pages: seq<IndexPage>, p: Key,
                                          after: Option<Key>)
    requires FinishedPass(states, pages, p, after) && Quiescent(db, states)
    ensures forall e :: e in Emitted(states, keyPrefix, pages, p, after) ==> OfLiveKey(db, keyPrefix, e)
    decreases |pages|
  {
    PageEntriesAreLive(db, states, keyPrefix, pages[0], p, after);
    if pages[0].Next().Some? {
      EmittedAreLive(db, states, keyPrefix, pages[1..], p, pages[0].Next());
    }
  }

  lemma IndexPassExact(db: Db, states: seq<Db>, keyPrefix: Key, prefix: Key, pages: seq<IndexPage>)
    requires FinishedPass(states, pages, FullKey(keyPrefix, prefix), None) && Quiescent(db, states)
    requires forall k :: k in db.data ==> Ours(keyPrefix, k)
    ensures forall e :: e in Emitted(states, keyPrefix, pages, FullKey(keyPrefix, prefix), None) <==>
            e in Listing(db, keyPrefix, prefix)
  {
    var p := FullKey(keyPrefix, prefix);
    var es := Emitted(states, keyPrefix, pages, p, None);
    EmittedAreLive(db, states, keyPrefix, pages, p, None);
    IndexPassIsSound(states, keyPrefix, prefix, pages);
    forall e | e in es
      ensures e in Listing(db, keyPrefix, prefix)
    {
      assert OfLiveKey(db, keyPrefix, e);
      var k :| db.Live(k) && e == (LogicalKey(keyPrefix, k), LiveEntry(db, k));
      var i :| 0 <= i < |es| && es[i] == e;
      OursPrefix(keyPrefix, prefix, k);
    }
    forall e | e in Listing(db, keyPrefix, prefix)
      ensures e in es
    {
      var k :| k in db.data && db.Live(k) && p <= k && e == (LogicalKey(keyPrefix, k), LiveEntry(db, k));
      OursPrefix(keyPrefix, prefix, k);
      assert Throughout(states, k);
      assert Once(es, e.0);
      var i :| 0 <= i < |es| && es[i].0 == e.0;
      assert es[i] in es && OfLiveKey(db, keyPrefix, es[i]);
      var k' :| db.Live(k') && es[i] == (LogicalKey(keyPrefix, k'), LiveEntry(db, k'));
      OursPrefix(keyPrefix, prefix, k');
      assert k' == k;
    }
  }

  /** For a data key of the deployment: its names, and its prefix under either name. */
  lemma OursPrefix(keyPrefix: Key, prefix: Key, k: Key)
    requires Ours(keyPrefix, k)
    ensures FullKey(keyPrefix, LogicalKey(keyPrefix, k)) == k
    ensures FullKey(keyPrefix, prefix) <= k <==> prefix <= LogicalKey(keyPrefix, k)
  {
    KeyNamesRoundTrip(keyPrefix, []);
    PrefixRangeOfFullKeys(keyPrefix, prefix, LogicalKey(keyPrefix, k));
    PrefixRangeExact(FullKey(keyPrefix, prefix), k);
  }

  // ---- The scan pass ----

  /** What one page of keys returns in the state `db`. */
  function ScanEntries(db: Db, keyPrefix: Key, keys: seq<Key>): seq<(Key, Entry)> {
    Kept(keyPrefix, keys, AnswersAt(db, keys))
  }

  /** Fetching page by page is fetching all the keys handed out. */
  lemma {:induction false} FetchByPages(db: Db, keyPrefix: Key, a: seq<Key>, b: seq<Key>)
    ensures ScanEntries(db, keyPrefix, a + b) == ScanEntries(db, keyPrefix, a) + ScanEntries(db, keyPrefix, b)
    decreases |a|
  {
    if a == [] {
      assert a + b == b;
    } else {
      FetchByPages(db, keyPrefix, a[1..], b);
      assert (a + b)[1..] == a[1..] + b;
      assert AnswersAt(db, a + b)[1..] == AnswersAt(db, a[1..] + b);
      assert AnswersAt(db, a)[1..] == AnswersAt(db, a[1..]);
    }
  }

  /** What a scan pass returns in the state `db`: the entries of each page in turn. */
  function ScanEmitted(db: Db, keyPrefix: Key, c: ScanCursor, limits: seq<nat>, replies: seq<ScanReply>)
    : seq<(Key, Entry)>
    decreases |limits|
  {
    if limits == [] then []
    else
      var page := PageOf(c, limits[0], replies);
      ScanEntries(db, keyPrefix, page.keys)
      + if page.next.None? then []
        else ScanEmitted(db, keyPrefix, page.next.value, limits[1..], replies[page.used..])
  }

  lemma {:induction false} EmittedByPages(db: Db, keyPrefix: Key, c: ScanCursor, limits: seq<nat>,
                                          replies: seq<ScanReply>)
    ensures ScanEmitted(db, keyPrefix, c, limits, replies) ==
            ScanEntries(db, keyPrefix, PassOf(c, limits, replies).keys)
    decreases |limits|
  {
    if limits != [] {
      var page := PageOf(c, limits[0], replies);
      if page.next.None? {
        assert ScanEntries(db, keyPrefix, page.keys) + [] == ScanEntries(db, keyPrefix, page.keys);
      } else {
        var rest := replies[page.used..];
        EmittedByPages(db, keyPrefix, page.next.value, limits[1..], rest);
        FetchByPages(db, keyPrefix, page.keys, PassOf(page.next.value, limits[1..], rest).keys);
      }
    }
  }

  /** One server pass in the unchanging state: `SCAN` returns only existing keys that match
      the pattern, and each of them at least once. */
  ghost predicate ScanOf(db: Db, pattern: Key, keys: seq<Key>) {
    && (forall k :: k in keys ==> k in db.data && Glob.Match(pattern, k))
    && (forall k :: db.Live(k) && Glob.Match(pattern, k) ==> k in keys)
  }

  lemma ScanPassExact(db: Db, keyPrefix: Key, prefix: Key, limits: seq<nat>, replies: seq<ScanReply>, end: nat)
    requires forall i :: 0 <= i < |limits| ==> limits[i] >= 1
    requires EndsAt(replies, end) && PassOf(START, limits, replies).finished
    requires ScanOf(db, Glob.Escape(FullKey(keyPrefix, prefix)) + [Glob.STAR], Batches(replies[..end + 1]))
    ensures forall e :: e in ScanEmitted(db, keyPrefix, START, limits, replies) <==> e in Listing(db, keyPrefix, prefix)
  {
    var p := FullKey(keyPrefix, prefix);
    EmittedByPages(db, keyPrefix, START, limits, replies);
    ScanPassConserves(limits, replies, end);
    var keys := Batches(replies[..end + 1]);
    FetchExact(db, keyPrefix, keys, AnswersAt(db, keys));
    forall e | e in ScanEntries(db, keyPrefix, keys)
      ensures e in Listing(db, keyPrefix, prefix)
    {
      var i :| 0 <= i < |keys| && db.Live(keys[i]) && e == (LogicalKey(keyPrefix, keys[i]), LiveEntry(db, keys[i]));
      Glob.EscapedPrefixExact(p, keys[i]);
    }
    forall e | e in Listing(db, keyPrefix, prefix)
      ensures e in ScanEntries(db, keyPrefix, keys)
    {
      var k :| k in db.data && db.Live(k) && p <= k && e == (LogicalKey(keyPrefix, k), LiveEntry(db, k));
      Glob.EscapedPrefixExact(p, k);
      assert k in keys;
      var i :| 0 <= i < |keys| && keys[i] == k;
    }
  }

  /** Fast listing refines slow listing: with every live key indexed, stale entries or not,
      both return exactly the live data keys with the prefix and what they hold. */
  lemma FastListingRefinesSlow(
      db: Db, states: seq<Db>, keyPrefix: Key, prefix: Key, pages: seq<IndexPage>,
      limits: seq<nat>, replies: seq<ScanReply>, end: nat)
    requires forall k :: k in db.data ==> Ours(keyPrefix, k)
    requires Quiescent(db, states) && FinishedPass(states, pages, FullKey(keyPrefix, prefix), None)
    requires forall i :: 0 <= i < |limits| ==> limits[i] >= 1
    requires EndsAt(replies, end) && PassOf(START, limits, replies).finished
    requires ScanOf(db, Glob.Escape(FullKey(keyPrefix, prefix)) + [Glob.STAR], Batches(replies[..end + 1]))
    ensures var fast := Emitted(states, keyPrefix, pages, FullKey(keyPrefix, prefix), None);
            var slow := ScanEmitted(db, keyPrefix, START, limits, replies);
            && (forall e :: e in fast <==> e in slow)
            && (forall e :: e in fast <==> e in Listing(db, keyPrefix, prefix))
  {
    IndexPassExact(db, states, keyPrefix, prefix, pages);
    ScanPassExact(db, keyPrefix, prefix, limits, replies, end);
  }
}
