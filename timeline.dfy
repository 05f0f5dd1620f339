/**
 * The thread list of the current tree (src/main.js): the module-level
 * `tweets` array and `url`, kept across calls of `main`. Each call empties the
 * list when the page address changed, appends the posts on the page whose
 * `id` is not stored yet, and then scores every stored post not yet
 * `processed`, highlighting it when its score reaches 50. Reading a post from
 * the page is not modelled: a post that `Tweet.from` rejects is `None`.
 */
module Timeline {
  import opened Wrappers
  import opened Js
  import opened Rules
  import Checker

  /** A stored tweet with its `processed` flag. */
  datatype Entry = Entry(tweet: Checker.Tweet, processed: bool)

  /** What scoring a stored tweet produced, and whether its background was turned red. */
  datatype Outcome = Outcome(id: string, info: SpamInfo, highlighted: bool)

  /** The state after a processing pass, the outcomes in order, and the error that ended it early. */
  datatype Processed = Processed(entries: seq<Entry>, outcomes: seq<Outcome>, error: Option<Error>)

  /** `score >= 50` turns the post red. */
  const Threshold := 50

  /** What `tweetElement.style` or `tweetElement.after` throws when the lookup found no article. */
  const NoElement := TypeError("Cannot read properties of null")

  /**
   * The attribute value the article lookup is built from, as written:
   * `tweet._ariaLabelledby`, which nothing in the current tree assigns, so the
   * template literal turns it into `'undefined'` for every post.
   */
  const UnsetLabel := "undefined"

  /**
   * The lookup as written: whatever the post, the selector asks for
   * `article[aria-labelledby='undefined']`; `onPage(l)` is whether the page
   * holds an article labelled `l`.
   */
  function LookupAsWritten(onPage: string -> bool): Checker.Tweet -> bool {
    _ => onPage(UnsetLabel)
  }

  /** The tweets of the list, as `calcSpamScore` sees them. */
  function Tweets(entries: seq<Entry>): (ts: seq<Checker.Tweet>)
    ensures |ts| == |entries|
    ensures forall i | 0 <= i < |entries| :: ts[i] == entries[i].tweet
  {
    seq(|entries|, i requires 0 <= i < |entries| => entries[i].tweet)
  }

  predicate HasId(entries: seq<Entry>, id: string) {
    exists i | 0 <= i < |entries| :: entries[i].tweet.id == id
  }

  /** The list after the `isExists` check and the `push`. */
  function Added(entries: seq<Entry>, tweet: Checker.Tweet): seq<Entry> {
    if HasId(entries, tweet.id) then entries else entries + [Entry(tweet, false)]
  }

  /** The list after the articles of a page were read in order; `None` is a post `Tweet.from` rejected. */
  function Scanned(entries: seq<Entry>, posts: seq<Option<Checker.Tweet>>): seq<Entry> {
    if posts == [] then entries
    else
      var before := Scanned(entries, posts[..|posts| - 1]);
      var post := posts[|posts| - 1];
      if post.Some? then Added(before, post.value) else before
  }

  /**
   * The processing loop from entry `i` on: an entry not yet processed is
   * scored against the whole list; when `document.querySelector` finds its
   * article (`located`) the outcome is recorded and the entry marked,
   * otherwise using the `null` element throws. A `TypeError` ends the pass,
   * leaving that entry and the rest as they were.
   */
  function ProcessFrom(entries: seq<Entry>, i: nat, thread: seq<Checker.Tweet>, href: string, isEmoji: char -> bool,
                       located: Checker.Tweet -> bool): Processed
    requires i <= |entries|
    decreases |entries| - i
  {
    if i == |entries| then Processed(entries, [], None)
    else if entries[i].processed then ProcessFrom(entries, i + 1, thread, href, isEmoji, located)
    else
      match Checker.SpamScore(entries[i].tweet, thread, href, isEmoji)
      case Err(e) => Processed(entries, [], Some(e))
      case Ok(info) =>
        if !located(entries[i].tweet) then Processed(entries, [], Some(NoElement))
        else
          var rest := ProcessFrom(entries[i := Entry(entries[i].tweet, true)], i + 1, thread, href, isEmoji, located);
          Processed(rest.entries, [Outcome(entries[i].tweet.id, info, info.score >= Threshold)] + rest.outcomes, rest.error)
  }

  /** A whole pass over the list, scoring against the list itself. */
  function Process(entries: seq<Entry>, href: string, isEmoji: char -> bool, located: Checker.Tweet -> bool): Processed {
    ProcessFrom(entries, 0, Tweets(entries), href, isEmoji, located)
  }

  class ThreadList {
    var tweets: seq<Entry>
    var url: string

    /** No two stored tweets share an `id`. */
    ghost predicate Valid()
      reads this
    {
      Checker.UniqueIds(Tweets(tweets))
    }

    /** The module's initial state: an empty list and the address at load time. */
    constructor (href: string)
      ensures Valid()
      ensures tweets == [] && url == href
    {
      tweets := [];
      url := href;
    }

    /** The address check at the top of `main`. */
    method SyncUrl(href: string)
      requires Valid()
      modifies this
      ensures Valid()
      ensures url == href
      ensures tweets == if old(url) != href then [] else old(tweets)
    {
      if url != href {
        tweets := [];
        url := href;
      }
    }

    /** The `isExists` loop. */
    method Contains(id: string) returns (isExists: bool)
      ensures isExists == HasId(tweets, id)
    {
      isExists := false;
      for k := 0 to |tweets|
        invariant isExists == HasId(tweets[..k], id)
      {
        assert tweets[..k + 1][..k] == tweets[..k];
        if id == tweets[k].tweet.id {
          isExists := true;
        }
      }
      assert tweets[..|tweets|] == tweets;
    }

    /** Stores a post read from the page unless one with its `id` is stored. */
    method Add(tweet: Checker.Tweet)
      requires Valid()
      modifies this
      ensures Valid()
      ensures url == old(url)
      ensures tweets == Added(old(tweets), tweet)
    {
      var isExists := Contains(tweet.id);
      if !isExists {
        AddedKeepsUnique(tweets, tweet);
        tweets := tweets + [Entry(tweet, false)];
      }
    }

    /** The loop over the page's articles. */
    method Scan(posts: seq<Option<Checker.Tweet>>)
      requires Valid()
      modifies this
      ensures Valid()
      ensures url == old(url)
      ensures tweets == Scanned(old(tweets), posts)
    {
      for k := 0 to |posts|
        invariant Valid()
        invariant url == old(url)
        invariant tweets == Scanned(old(tweets), posts[..k])
      {
        assert posts[..k + 1][..k] == posts[..k];
        if posts[k].Some? {
          Add(posts[k].value);
        }
      }
      assert posts[..|posts|] == posts;
    }

    /** The processing loop of `main`; `located` is the page's answer to the article lookup. */
    method ProcessPending(href: string, isEmoji: char -> bool, located: Checker.Tweet -> bool)
      returns (outcomes: seq<Outcome>, error: Option<Error>)
      requires Valid()
      modifies this
      ensures Valid()
      ensures url == old(url)
      ensures Process(old(tweets), href, isEmoji, located) == Processed(tweets, outcomes, error)
    {
      ghost var start := tweets;
      var thread := Tweets(tweets);
      outcomes := [];
      error := None;
      var i := 0;
      while i < |tweets|
        invariant i <= |tweets|
        invariant Tweets(tweets) == thread
        invariant url == old(url)
        invariant var r := ProcessFrom(tweets, i, thread, href, isEmoji, located);
                  ProcessFrom(start, 0, thread, href, isEmoji, located) == Processed(r.entries, outcomes + r.outcomes, r.error)
        decreases |tweets| - i
      {
        var entry := tweets[i];
        if !entry.processed {
          var result := Checker.CalcSpamScore(entry.tweet, thread, href, isEmoji);
          if result.Err? {
            error := Some(result.error);
            assert outcomes + [] == outcomes;
            return;
          }
          if !located(entry.tweet) {
            error := Some(NoElement);
            assert outcomes + [] == outcomes;
            return;
          }
          var info := result.value;
          var highlighted := info.score >= Threshold;
          ghost var rest := ProcessFrom(tweets[i := Entry(entry.tweet, true)], i + 1, thread, href, isEmoji, located);
          assert ProcessFrom(tweets, i, thread, href, isEmoji, located)
              == Processed(rest.entries, [Outcome(entry.tweet.id, info, highlighted)] + rest.outcomes, rest.error);
          assert outcomes + ([Outcome(entry.tweet.id, info, highlighted)] + rest.outcomes)
              == (outcomes + [Outcome(entry.tweet.id, info, highlighted)]) + rest.outcomes;
          outcomes := outcomes + [Outcome(entry.tweet.id, info, highlighted)];
          tweets := tweets[i := Entry(entry.tweet, true)];
          assert Tweets(tweets) == thread;
        }
        i := i + 1;
      }
      assert outcomes + [] == outcomes;
    }

    /** One call of `main`: the address check, the scan, the processing pass. */
    method Refresh(href: string, posts: seq<Option<Checker.Tweet>>, isEmoji: char -> bool, located: Checker.Tweet -> bool)
      returns (outcomes: seq<Outcome>, error: Option<Error>)
      requires Valid()
      modifies this
      ensures Valid()
      ensures url == href
      ensures var kept := if old(url) != href then [] else old(tweets);
              Process(Scanned(kept, posts), href, isEmoji, located) == Processed(tweets, outcomes, error)
    {
      SyncUrl(href);
      Scan(posts);
      outcomes, error := ProcessPending(href, isEmoji, located);
    }
  }

  // ---------------------------------------------------------------- the list

  /** Adding keeps the `id`s unique. */
  lemma AddedKeepsUnique(entries: seq<Entry>, tweet: Checker.Tweet)
    requires Checker.UniqueIds(Tweets(entries))
    ensures Checker.UniqueIds(Tweets(Added(entries, tweet)))
  {
  }

  /**
   * Adding appends at the end and never changes what is stored; afterwards
   * the `id` is stored, and the list grew exactly when it was not stored before.
   */
  lemma AddedAppends(entries: seq<Entry>, tweet: Checker.Tweet)
    ensures |entries| <= |Added(entries, tweet)| <= |entries| + 1
    ensures Added(entries, tweet)[..|entries|] == entries
    ensures HasId(Added(entries, tweet), tweet.id)
    ensures Added(entries, tweet) == entries <==> HasId(entries, tweet.id)
  {
    if !HasId(entries, tweet.id) {
      assert Added(entries, tweet)[|entries|].tweet.id == tweet.id;
    }
  }

  /** Adding the same post twice stores it once. */
  lemma AddedIdempotent(entries: seq<Entry>, tweet: Checker.Tweet)
    ensures Added(Added(entries, tweet), tweet) == Added(entries, tweet)
  {
    AddedAppends(entries, tweet);
  }

  /** Reading a page keeps the `id`s unique. */
  lemma {:induction false} ScannedKeepsUnique(entries: seq<Entry>, posts: seq<Option<Checker.Tweet>>)
    requires Checker.UniqueIds(Tweets(entries))
    ensures Checker.UniqueIds(Tweets(Scanned(entries, posts)))
  {
    if posts != [] {
      ScannedKeepsUnique(entries, posts[..|posts| - 1]);
      if posts[|posts| - 1].Some? {
        AddedKeepsUnique(Scanned(entries, posts[..|posts| - 1]), posts[|posts| - 1].value);
      }
    }
  }

  /** Reading a page only appends: the stored list is a prefix of the new one, so the root stays first. */
  lemma {:induction false} ScannedAppends(entries: seq<Entry>, posts: seq<Option<Checker.Tweet>>)
    ensures |entries| <= |Scanned(entries, posts)|
    ensures Scanned(entries, posts)[..|entries|] == entries
  {
    if posts != [] {
      var before := Scanned(entries, posts[..|posts| - 1]);
      ScannedAppends(entries, posts[..|posts| - 1]);
      if posts[|posts| - 1].Some? {
        AddedAppends(before, posts[|posts| - 1].value);
        assert Added(before, posts[|posts| - 1].value)[..|entries|] == before[..|entries|];
      }
    }
  }

  /** After reading a page, every post read from it has its `id` stored. */
  lemma {:induction false} ScannedStoresAll(entries: seq<Entry>, posts: seq<Option<Checker.Tweet>>, k: nat)
    requires k < |posts| && posts[k].Some?
    ensures HasId(Scanned(entries, posts), posts[k].value.id)
  {
    var init := posts[..|posts| - 1];
    var before := Scanned(entries, init);
    if k < |posts| - 1 {
      assert init[k] == posts[k];
      ScannedStoresAll(entries, init, k);
      if posts[|posts| - 1].Some? {
        AddedAppends(before, posts[|posts| - 1].value);
        var i :| 0 <= i < |before| && before[i].tweet.id == posts[k].value.id;
        assert Scanned(entries, posts)[i] == before[i];
      }
    } else {
      AddedAppends(before, posts[k].value);
    }
  }

  /** A page whose posts are all stored already changes nothing. */
  lemma {:induction false} ScannedNothingNew(entries: seq<Entry>, posts: seq<Option<Checker.Tweet>>)
    requires forall k | 0 <= k < |posts| && posts[k].Some? :: HasId(entries, posts[k].value.id)
    ensures Scanned(entries, posts) == entries
  {
    if posts != [] {
      var init := posts[..|posts| - 1];
      assert forall k | 0 <= k < |init| :: init[k] == posts[k];
      ScannedNothingNew(entries, init);
    }
  }

  /** Reading the same page again adds nothing. */
  lemma ScannedIdempotent(entries: seq<Entry>, posts: seq<Option<Checker.Tweet>>)
    ensures Scanned(Scanned(entries, posts), posts) == Scanned(entries, posts)
  {
    forall k | 0 <= k < |posts| && posts[k].Some?
      ensures HasId(Scanned(entries, posts), posts[k].value.id)
    {
      ScannedStoresAll(entries, posts, k);
    }
    ScannedNothingNew(Scanned(entries, posts), posts);
  }

  // ---------------------------------------------------------------- processing

  /**
   * A pass changes only `processed` flags, never clears one, leaves the
   * entries before `i` alone, marks every entry from `i` on when it ends
   * without an error, and highlights exactly the outcomes scoring 50 or more.
   * Whether or not it ends with an error, each outcome belongs to an entry
   * that was pending and is now marked.
   */
  lemma {:induction false} ProcessFacts(entries: seq<Entry>, i: nat, thread: seq<Checker.Tweet>, href: string, isEmoji: char -> bool,
                                        located: Checker.Tweet -> bool)
    requires i <= |entries|
    decreases |entries| - i
    ensures var r := ProcessFrom(entries, i, thread, href, isEmoji, located);
            && |r.entries| == |entries|
            && Tweets(r.entries) == Tweets(entries)
            && r.entries[..i] == entries[..i]
            && (forall k | 0 <= k < |entries| && entries[k].processed :: r.entries[k].processed)
            && (r.error.None? ==> forall k | i <= k < |entries| :: r.entries[k].processed)
            && (forall o | o in r.outcomes :: o.highlighted <==> o.info.score >= Threshold)
            && (forall o | o in r.outcomes ::
                  exists k | i <= k < |entries| :: !entries[k].processed && r.entries[k].processed && entries[k].tweet.id == o.id
                    && located(entries[k].tweet) && Checker.SpamScore(entries[k].tweet, thread, href, isEmoji) == Ok(o.info))
  {
    if i < |entries| {
      if entries[i].processed {
        ProcessFacts(entries, i + 1, thread, href, isEmoji, located);
      } else if Checker.SpamScore(entries[i].tweet, thread, href, isEmoji).Ok? && located(entries[i].tweet) {
        var marked := entries[i := Entry(entries[i].tweet, true)];
        ProcessFacts(marked, i + 1, thread, href, isEmoji, located);
        assert Tweets(marked) == Tweets(entries);
        assert marked[..i] == entries[..i];
        var r := ProcessFrom(marked, i + 1, thread, href, isEmoji, located);
        assert r.entries[..i] == r.entries[..i + 1][..i];
        assert r.entries[i] == r.entries[..i + 1][i];
        forall o | o in ProcessFrom(entries, i, thread, href, isEmoji, located).outcomes
          ensures exists k | i <= k < |entries| :: !entries[k].processed && r.entries[k].processed && entries[k].tweet.id == o.id
                    && located(entries[k].tweet) && Checker.SpamScore(entries[k].tweet, thread, href, isEmoji) == Ok(o.info)
        {
          if o !in r.outcomes {
            assert !entries[i].processed && r.entries[i].processed && entries[i].tweet.id == o.id;
          }
        }
      }
    }
  }

  /** A list whose entries from `i` on are all processed is left as it is, and nothing is scored. */
  lemma {:induction false} ProcessDoneIsNoop(entries: seq<Entry>, i: nat, thread: seq<Checker.Tweet>, href: string, isEmoji: char -> bool,
                                             located: Checker.Tweet -> bool)
    requires i <= |entries|
    requires forall k | i <= k < |entries| :: entries[k].processed
    decreases |entries| - i
    ensures ProcessFrom(entries, i, thread, href, isEmoji, located) == Processed(entries, [], None)
  {
    if i < |entries| {
      ProcessDoneIsNoop(entries, i + 1, thread, href, isEmoji, located);
    }
  }

  /**
   * Each stored post is scored at most once on an address: no post that a
   * pass scored, whether or not the pass then stopped at an error, is scored
   * by the next call of `main`, whatever that call reads from the page; and
   * after a pass without an error the next pass over the same list scores
   * nothing.
   */
  lemma ScoredAtMostOnce(entries: seq<Entry>, posts: seq<Option<Checker.Tweet>>, href: string, isEmoji: char -> bool,
                         located: Checker.Tweet -> bool, located': Checker.Tweet -> bool)
    requires Checker.UniqueIds(Tweets(entries))
    ensures var first := Process(entries, href, isEmoji, located);
            var second := Process(Scanned(first.entries, posts), href, isEmoji, located');
            forall o, o' | o in first.outcomes && o' in second.outcomes :: o.id != o'.id
    ensures var first := Process(entries, href, isEmoji, located);
            first.error.None? ==> Process(first.entries, href, isEmoji, located') == Processed(first.entries, [], None)
  {
    var first := Process(entries, href, isEmoji, located);
    var after := first.entries;
    ProcessFacts(entries, 0, Tweets(entries), href, isEmoji, located);
    if first.error.None? {
      ProcessDoneIsNoop(after, 0, Tweets(after), href, isEmoji, located');
    }
    var later := Scanned(after, posts);
    ScannedKeepsUnique(after, posts);
    ScannedAppends(after, posts);
    var second := Process(later, href, isEmoji, located');
    ProcessFacts(later, 0, Tweets(later), href, isEmoji, located');
    forall o, o' | o in first.outcomes && o' in second.outcomes
      ensures o.id != o'.id
    {
      var k :| 0 <= k < |entries| && !entries[k].processed && after[k].processed && entries[k].tweet.id == o.id;
      var k' :| 0 <= k' < |later| && !later[k'].processed && second.entries[k'].processed && later[k'].tweet.id == o'.id;
      assert later[k] == later[..|after|][k] == after[k];
      assert Tweets(after)[k] == Tweets(entries)[k];
      assert Tweets(later)[k] != Tweets(later)[k'] by {
        assert k != k';
      }
    }
  }

  /** A post is highlighted exactly when its score is at least 50. */
  lemma HighlightIffThreshold(entries: seq<Entry>, href: string, isEmoji: char -> bool, located: Checker.Tweet -> bool, o: Outcome)
    requires o in Process(entries, href, isEmoji, located).outcomes
    ensures o.highlighted <==> o.info.score >= 50
  {
    ProcessFacts(entries, 0, Tweets(entries), href, isEmoji, located);
  }

  /**
   * As written, the lookup asks for an article labelled `'undefined'`. On a
   * page without one, a pass marks nothing and records nothing: it stops at
   * the first pending post, after scoring it, and ends without an error only
   * when nothing was pending. The same post is scored again on every call.
   */
  lemma {:induction false} UnsetLabelMarksNothing(entries: seq<Entry>, i: nat, thread: seq<Checker.Tweet>, href: string,
                                                  isEmoji: char -> bool, onPage: string -> bool)
    requires i <= |entries|
    requires !onPage(UnsetLabel)
    decreases |entries| - i
    ensures var r := ProcessFrom(entries, i, thread, href, isEmoji, LookupAsWritten(onPage));
            && r.entries == entries
            && r.outcomes == []
            && (r.error.None? <==> forall k | i <= k < |entries| :: entries[k].processed)
  {
    if i < |entries| && entries[i].processed {
      UnsetLabelMarksNothing(entries, i + 1, thread, href, isEmoji, onPage);
      assert (forall k | i + 1 <= k < |entries| :: entries[k].processed)
         <==> (forall k | i <= k < |entries| :: entries[k].processed);
    }
  }

  /**
   * With each post's own article found, as intended, a pass ends without an
   * error exactly when every pending post scores; `ProcessFacts` then has
   * every entry marked.
   */
  lemma {:induction false} LocatedPassCompletes(entries: seq<Entry>, i: nat, thread: seq<Checker.Tweet>, href: string, isEmoji: char -> bool)
    requires i <= |entries|
    decreases |entries| - i
    ensures var r := ProcessFrom(entries, i, thread, href, isEmoji, _ => true);
            r.error.None? <==> forall k | i <= k < |entries| && !entries[k].processed ::
                                 Checker.SpamScore(entries[k].tweet, thread, href, isEmoji).Ok?
  {
    if i < |entries| {
      var marked := entries[i := Entry(entries[i].tweet, true)];
      if entries[i].processed {
        LocatedPassCompletes(entries, i + 1, thread, href, isEmoji);
      } else if Checker.SpamScore(entries[i].tweet, thread, href, isEmoji).Ok? {
        LocatedPassCompletes(marked, i + 1, thread, href, isEmoji);
        assert forall k | i + 1 <= k < |entries| :: marked[k] == entries[k];
      }
    }
  }

  /** Over the stored list, whose `id`s are unique, the repeated-author rule as written never fires. */
  lemma StoredListNeverRepeats(entries: seq<Entry>, tweet: Checker.Tweet, href: string, isEmoji: char -> bool)
    requires Checker.UniqueIds(Tweets(entries))
    requires tweet.content.Some? && tweet.description.Some?
    ensures RepeatedAuthor !in Checker.Fired(tweet, Tweets(entries), href, isEmoji)
  {
    Checker.RepeatedAuthorNeverFires(tweet, Tweets(entries), href, isEmoji);
  }
}
