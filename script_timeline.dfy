/**
 * The thread list of the userscript (script/script.js): the module-level
 * `tweetDatas` array and `url`, kept across calls of `main`. Each call empties
 * the list when the page address changed, appends each record read from the
 * page unless one with the same `quotedText` is stored (`==`, so two `null`
 * texts count as the same), and then scores every stored record not yet
 * `processed`, highlighting it when its score reaches 50. Reading the React
 * properties of an article is not modelled: an article without them is `None`.
 */
module ScriptTimeline {
  import opened Wrappers
  import opened Js
  import opened Rules
  import ScriptChecker

  type TweetData = ScriptChecker.TweetData

  /** A stored record with its `processed` flag. */
  datatype Entry = Entry(data: TweetData, processed: bool)

  /** What scoring a stored record produced, and whether its background was turned red. */
  datatype Outcome = Outcome(text: Option<string>, info: SpamInfo, highlighted: bool)

  /** The state after a processing pass, the outcomes in order, and the error that ended it early. */
  datatype Processed = Processed(entries: seq<Entry>, outcomes: seq<Outcome>, error: Option<Error>)

  /** `score >= 50` turns the post red. */
  const Threshold := 50

  /** What `tweetElement.style` or `tweetElement.after` throws when the lookup found no article. */
  const NoElement := TypeError("Cannot read properties of null")

  /** The records of the list, as `calcSpamScore` sees them. */
  function Datas(entries: seq<Entry>): (ds: seq<TweetData>)
    ensures |ds| == |entries|
    ensures forall i | 0 <= i < |entries| :: ds[i] == entries[i].data
  {
    seq(|entries|, i requires 0 <= i < |entries| => entries[i].data)
  }

  predicate HasText(entries: seq<Entry>, text: Option<string>) {
    exists i | 0 <= i < |entries| :: entries[i].data.text == text
  }

  /** No two stored records share a `quotedText`. */
  predicate UniqueTexts(entries: seq<Entry>) {
    forall i, j | 0 <= i < j < |entries| :: entries[i].data.text != entries[j].data.text
  }

  /** The list after the `isExist` check and the `push`. */
  function Added(entries: seq<Entry>, d: TweetData): seq<Entry> {
    if HasText(entries, d.text) then entries else entries + [Entry(d, false)]
  }

  /** The list after the articles of a page were read in order; `None` is an article without React properties. */
  function Scanned(entries: seq<Entry>, posts: seq<Option<TweetData>>): seq<Entry> {
    if posts == [] then entries
    else
      var before := Scanned(entries, posts[..|posts| - 1]);
      var post := posts[|posts| - 1];
      if post.Some? then Added(before, post.value) else before
  }

  /**
   * The processing loop from entry `i` on: a record not yet processed is
   * scored against the whole list; when `document.querySelector` finds the
   * article labelled with its `ariaLabelledby` (`located`) the outcome is
   * recorded and the record marked, otherwise using the `null` element
   * throws. A `TypeError` ends the pass, leaving that record and the rest as
   * they were.
   */
  function ProcessFrom(entries: seq<Entry>, i: nat, thread: seq<TweetData>, href: string, isEmoji: char -> bool,
                       located: TweetData -> bool): Processed
    requires i <= |entries|
    decreases |entries| - i
  {
    if i == |entries| then Processed(entries, [], None)
    else if entries[i].processed then ProcessFrom(entries, i + 1, thread, href, isEmoji, located)
    else
      match ScriptChecker.SpamScore(entries[i].data, thread, href, isEmoji)
      case Err(e) => Processed(entries, [], Some(e))
      case Ok(info) =>
        if !located(entries[i].data) then Processed(entries, [], Some(NoElement))
        else
          var rest := ProcessFrom(entries[i := Entry(entries[i].data, true)], i + 1, thread, href, isEmoji, located);
          Processed(rest.entries, [Outcome(entries[i].data.text, info, info.score >= Threshold)] + rest.outcomes, rest.error)
  }

  /** A whole pass over the list, scoring against the list itself. */
  function Process(entries: seq<Entry>, href: string, isEmoji: char -> bool, located: TweetData -> bool): Processed {
    ProcessFrom(entries, 0, Datas(entries), href, isEmoji, located)
  }

  class DataList {
    var tweetDatas: seq<Entry>
    var url: string

    ghost predicate Valid()
      reads this
    {
      UniqueTexts(tweetDatas)
    }

    /** The script's initial state: an empty list and the address at load time. */
    constructor (href: string)
      ensures Valid()
      ensures tweetDatas == [] && url == href
    {
      tweetDatas := [];
      url := href;
    }

    /** The address check at the top of `saveProperties`. */
    method SyncUrl(href: string)
      requires Valid()
      modifies this
      ensures Valid()
      ensures url == href
      ensures tweetDatas == if old(url) != href then [] else old(tweetDatas)
    {
      if url != href {
        tweetDatas := [];
        url := href;
      }
    }

    /** The `isExist` loop. */
    method Contains(text: Option<string>) returns (isExist: bool)
      ensures isExist == HasText(tweetDatas, text)
    {
      isExist := false;
      for k := 0 to |tweetDatas|
        invariant isExist == HasText(tweetDatas[..k], text)
      {
        assert tweetDatas[..k + 1][..k] == tweetDatas[..k];
        if tweetDatas[k].data.text == text {
          isExist := true;
        }
      }
      assert tweetDatas[..|tweetDatas|] == tweetDatas;
    }

    /** Stores a record read from the page unless one with its text is stored. */
    method Add(d: TweetData)
      requires Valid()
      modifies this
      ensures Valid()
      ensures url == old(url)
      ensures tweetDatas == Added(old(tweetDatas), d)
    {
      var isExist := Contains(d.text);
      if !isExist {
        tweetDatas := tweetDatas + [Entry(d, false)];
      }
    }

    /** The loop over the page's articles in `saveProperties`. */
    method Scan(posts: seq<Option<TweetData>>)
      requires Valid()
      modifies this
      ensures Valid()
      ensures url == old(url)
      ensures tweetDatas == Scanned(old(tweetDatas), posts)
    {
      for k := 0 to |posts|
        invariant Valid()
        invariant url == old(url)
        invariant tweetDatas == Scanned(old(tweetDatas), posts[..k])
      {
        assert posts[..k + 1][..k] == posts[..k];
        if posts[k].Some? {
          Add(posts[k].value);
        }
      }
      assert posts[..|posts|] == posts;
    }

    /** The processing loop of `main`; `located` is the page's answer to the article lookup. */
    method ProcessPending(href: string, isEmoji: char -> bool, located: TweetData -> bool)
      returns (outcomes: seq<Outcome>, error: Option<Error>)
      requires Valid()
      modifies this
      ensures Valid()
      ensures url == old(url)
      ensures Process(old(tweetDatas), href, isEmoji, located) == Processed(tweetDatas, outcomes, error)
    {
      ghost var start := tweetDatas;
      var thread := Datas(tweetDatas);
      outcomes := [];
      error := None;
      var i := 0;
      while i < |tweetDatas|
        invariant i <= |tweetDatas|
        invariant Datas(tweetDatas) == thread
        invariant url == old(url)
        invariant var r := ProcessFrom(tweetDatas, i, thread, href, isEmoji, located);
                  ProcessFrom(start, 0, thread, href, isEmoji, located) == Processed(r.entries, outcomes + r.outcomes, r.error)
        decreases |tweetDatas| - i
      {
        var entry := tweetDatas[i];
        if !entry.processed {
          var result := ScriptChecker.CalcSpamScore(entry.data, thread, href, isEmoji);
          if result.Err? {
            error := Some(result.error);
            assert outcomes + [] == outcomes;
            return;
          }
          if !located(entry.data) {
            error := Some(NoElement);
            assert outcomes + [] == outcomes;
            return;
          }
          var info := result.value;
          var outcome := Outcome(entry.data.text, info, info.score >= Threshold);
          ghost var rest := ProcessFrom(tweetDatas[i := Entry(entry.data, true)], i + 1, thread, href, isEmoji, located);
          assert ProcessFrom(tweetDatas, i, thread, href, isEmoji, located) == Processed(rest.entries, [outcome] + rest.outcomes, rest.error);
          assert outcomes + ([outcome] + rest.outcomes) == (outcomes + [outcome]) + rest.outcomes;
          outcomes := outcomes + [outcome];
          tweetDatas := tweetDatas[i := Entry(entry.data, true)];
          assert Datas(tweetDatas) == thread;
        }
        i := i + 1;
      }
      assert outcomes + [] == outcomes;
    }

    /** One call of `main`: `saveProperties`, then the processing pass. */
    method Refresh(href: string, posts: seq<Option<TweetData>>, isEmoji: char -> bool, located: TweetData -> bool)
      returns (outcomes: seq<Outcome>, error: Option<Error>)
      requires Valid()
      modifies this
      ensures Valid()
      ensures url == href
      ensures var kept := if old(url) != href then [] else old(tweetDatas);
              Process(Scanned(kept, posts), href, isEmoji, located) == Processed(tweetDatas, outcomes, error)
    {
      SyncUrl(href);
      Scan(posts);
      outcomes, error := ProcessPending(href, isEmoji, located);
    }
  }

  // ---------------------------------------------------------------- the list

  /**
   * Adding appends at the end and never changes what is stored; afterwards
   * the text is stored, and the list grew exactly when it was not stored
   * before, so a copy of a stored text, by anyone, is never stored.
   */
  lemma AddedAppends(entries: seq<Entry>, d: TweetData)
    ensures |entries| <= |Added(entries, d)| <= |entries| + 1
    ensures Added(entries, d)[..|entries|] == entries
    ensures HasText(Added(entries, d), d.text)
    ensures Added(entries, d) == entries <==> HasText(entries, d.text)
  {
    if !HasText(entries, d.text) {
      assert Added(entries, d)[|entries|].data.text == d.text;
    }
  }

  /** Two different posts with the same text are stored once: the second is dropped, whoever wrote it. */
  lemma IdenticalTextStoredOnce(entries: seq<Entry>, d1: TweetData, d2: TweetData)
    requires d1.text == d2.text
    ensures Added(Added(entries, d1), d2) == Added(entries, d1)
  {
    AddedAppends(entries, d1);
  }

  /** Adding keeps the texts unique. */
  lemma AddedKeepsUnique(entries: seq<Entry>, d: TweetData)
    requires UniqueTexts(entries)
    ensures UniqueTexts(Added(entries, d))
  {
  }

  /** Adding the same record twice stores it once. */
  lemma AddedIdempotent(entries: seq<Entry>, d: TweetData)
    ensures Added(Added(entries, d), d) == Added(entries, d)
  {
    AddedAppends(entries, d);
  }

  /** Reading a page keeps the texts unique. */
  lemma {:induction false} ScannedKeepsUnique(entries: seq<Entry>, posts: seq<Option<TweetData>>)
    requires UniqueTexts(entries)
    ensures UniqueTexts(Scanned(entries, posts))
  {
    if posts != [] {
      ScannedKeepsUnique(entries, posts[..|posts| - 1]);
      if posts[|posts| - 1].Some? {
        AddedKeepsUnique(Scanned(entries, posts[..|posts| - 1]), posts[|posts| - 1].value);
      }
    }
  }

  /** Reading a page only appends: the stored list is a prefix of the new one, so the root stays first. */
  lemma {:induction false} ScannedAppends(entries: seq<Entry>, posts: seq<Option<TweetData>>)
    ensures |entries| <= |Scanned(entries, posts)|
    ensures Scanned(entries, posts)[..|entries|] == entries
  {
    if posts != [] {
      var before := Scanned(entries, posts[..|posts| - 1]);
      ScannedAppends(entries, posts[..|posts| - 1]);
      if posts[|posts| - 1].Some? {
        AddedAppends(before, posts[|posts| - 1].value);
        assert Added(before, posts[|posts| - 1].value)[..|entries|] == before[..|entries|];
      }
    }
  }

  /** After reading a page, every record read from it has its text stored. */
  lemma {:induction false} ScannedStoresAll(entries: seq<Entry>, posts: seq<Option<TweetData>>, k: nat)
    requires k < |posts| && posts[k].Some?
    ensures HasText(Scanned(entries, posts), posts[k].value.text)
  {
    var init := posts[..|posts| - 1];
    var before := Scanned(entries, init);
    if k < |posts| - 1 {
      assert init[k] == posts[k];
      ScannedStoresAll(entries, init, k);
      if posts[|posts| - 1].Some? {
        AddedAppends(before, posts[|posts| - 1].value);
        var i :| 0 <= i < |before| && before[i].data.text == posts[k].value.text;
        assert Scanned(entries, posts)[i] == before[i];
      }
    } else {
      AddedAppends(before, posts[k].value);
    }
  }

  /** A page whose texts are all stored already changes nothing. */
  lemma {:induction false} ScannedNothingNew(entries: seq<Entry>, posts: seq<Option<TweetData>>)
    requires forall k | 0 <= k < |posts| && posts[k].Some? :: HasText(entries, posts[k].value.text)
    ensures Scanned(entries, posts) == entries
  {
    if posts != [] {
      var init := posts[..|posts| - 1];
      assert forall k | 0 <= k < |init| :: init[k] == posts[k];
      ScannedNothingNew(entries, init);
    }
  }

  /** Reading the same page again adds nothing. */
  lemma ScannedIdempotent(entries: seq<Entry>, posts: seq<Option<TweetData>>)
    ensures Scanned(Scanned(entries, posts), posts) == Scanned(entries, posts)
  {
    forall k | 0 <= k < |posts| && posts[k].Some?
      ensures HasText(Scanned(entries, posts), posts[k].value.text)
    {
      ScannedStoresAll(entries, posts, k);
    }
    ScannedNothingNew(Scanned(entries, posts), posts);
  }

  // ---------------------------------------------------------------- processing

  /**
   * A pass changes only `processed` flags, never clears one, leaves the
   * entries before `i` alone, marks every entry from `i` on when it ends
   * without an error, and highlights exactly the outcomes scoring 50 or more.
   * Whether or not it ends with an error, each outcome belongs to a record
   * that was pending and is now marked.
   */
  lemma {:induction false} ProcessFacts(entries: seq<Entry>, i: nat, thread: seq<TweetData>, href: string, isEmoji: char -> bool,
                                        located: TweetData -> bool)
    requires i <= |entries|
    decreases |entries| - i
    ensures var r := ProcessFrom(entries, i, thread, href, isEmoji, located);
            && |r.entries| == |entries|
            && Datas(r.entries) == Datas(entries)
            && r.entries[..i] == entries[..i]
            && (forall k | 0 <= k < |entries| && entries[k].processed :: r.entries[k].processed)
            && (r.error.None? ==> forall k | i <= k < |entries| :: r.entries[k].processed)
            && (forall o | o in r.outcomes :: o.highlighted <==> o.info.score >= Threshold)
            && (forall o | o in r.outcomes ::
                  exists k | i <= k < |entries| :: !entries[k].processed && r.entries[k].processed && entries[k].data.text == o.text
                    && located(entries[k].data) && ScriptChecker.SpamScore(entries[k].data, thread, href, isEmoji) == Ok(o.info))
  {
    if i < |entries| {
      if entries[i].processed {
        ProcessFacts(entries, i + 1, thread, href, isEmoji, located);
      } else if ScriptChecker.SpamScore(entries[i].data, thread, href, isEmoji).Ok? && located(entries[i].data) {
        var marked := entries[i := Entry(entries[i].data, true)];
        ProcessFacts(marked, i + 1, thread, href, isEmoji, located);
        assert Datas(marked) == Datas(entries);
        assert marked[..i] == entries[..i];
        var r := ProcessFrom(marked, i + 1, thread, href, isEmoji, located);
        assert r.entries[..i] == r.entries[..i + 1][..i];
        assert r.entries[i] == r.entries[..i + 1][i];
        forall o | o in ProcessFrom(entries, i, thread, href, isEmoji, located).outcomes
          ensures exists k | i <= k < |entries| :: !entries[k].processed && r.entries[k].processed && entries[k].data.text == o.text
                    && located(entries[k].data) && ScriptChecker.SpamScore(entries[k].data, thread, href, isEmoji) == Ok(o.info)
        {
          if o !in r.outcomes {
            assert !entries[i].processed && r.entries[i].processed && entries[i].data.text == o.text;
          }
        }
      }
    }
  }

  /** A list whose entries from `i` on are all processed is left as it is, and nothing is scored. */
  lemma {:induction false} ProcessDoneIsNoop(entries: seq<Entry>, i: nat, thread: seq<TweetData>, href: string, isEmoji: char -> bool,
                                             located: TweetData -> bool)
    requires i <= |entries|
    requires forall k | i <= k < |entries| :: entries[k].processed
    decreases |entries| - i
    ensures ProcessFrom(entries, i, thread, href, isEmoji, located) == Processed(entries, [], None)
  {
    if i < |entries| {
      ProcessDoneIsNoop(entries, i + 1, thread, href, isEmoji, located);
    }
  }

  /**
   * Each stored record is scored at most once on an address: no record that
   * a pass scored, whether or not the pass then stopped at an error (a record
   * with a `null` text, description or name throws on every pass), is scored
   * by the next call of `main`, whatever that call reads from the page; and
   * after a pass without an error the next pass over the same list scores
   * nothing.
   */
  lemma ScoredAtMostOnce(entries: seq<Entry>, posts: seq<Option<TweetData>>, href: string, isEmoji: char -> bool,
                         located: TweetData -> bool, located': TweetData -> bool)
    requires UniqueTexts(entries)
    ensures var first := Process(entries, href, isEmoji, located);
            var second := Process(Scanned(first.entries, posts), href, isEmoji, located');
            forall o, o' | o in first.outcomes && o' in second.outcomes :: o.text != o'.text
    ensures var first := Process(entries, href, isEmoji, located);
            first.error.None? ==> Process(first.entries, href, isEmoji, located') == Processed(first.entries, [], None)
  {
    var first := Process(entries, href, isEmoji, located);
    var after := first.entries;
    ProcessFacts(entries, 0, Datas(entries), href, isEmoji, located);
    if first.error.None? {
      ProcessDoneIsNoop(after, 0, Datas(after), href, isEmoji, located');
    }
    assert UniqueTexts(after) by {
      assert forall k | 0 <= k < |after| :: after[k].data == Datas(after)[k] == Datas(entries)[k] == entries[k].data;
    }
    var later := Scanned(after, posts);
    ScannedKeepsUnique(after, posts);
    ScannedAppends(after, posts);
    var second := Process(later, href, isEmoji, located');
    ProcessFacts(later, 0, Datas(later), href, isEmoji, located');
    forall o, o' | o in first.outcomes && o' in second.outcomes
      ensures o.text != o'.text
    {
      var k :| 0 <= k < |entries| && !entries[k].processed && after[k].processed && entries[k].data.text == o.text;
      var k' :| 0 <= k' < |later| && !later[k'].processed && second.entries[k'].processed && later[k'].data.text == o'.text;
      assert later[k] == later[..|after|][k] == after[k];
      assert Datas(after)[k] == Datas(entries)[k];
      assert k != k';
    }
  }

  /** A post is highlighted exactly when its score is at least 50. */
  lemma HighlightIffThreshold(entries: seq<Entry>, href: string, isEmoji: char -> bool, located: TweetData -> bool, o: Outcome)
    requires o in Process(entries, href, isEmoji, located).outcomes
    ensures o.highlighted <==> o.info.score >= 50
  {
    ProcessFacts(entries, 0, Datas(entries), href, isEmoji, located);
  }
}
