/** The feed reader: from the entries of the activity feed, the links of the
    repositories reported as created, in feed order. Fetching and parsing
    the feed is outside the model; each entry is given as the `value` of
    its first `content` element and its `link`. */
module FeedReader {
  import opened Wrappers
  import opened ActivityPattern

  datatype FeedEntry = FeedEntry(content: string, link: string)

  /** The entry's content matches the activity pattern with the word `created`. */
  predicate ReportsCreation(e: FeedEntry) {
    MatchActivity(e.content) == Some("created")
  }

  /** The links of the entries that `keep` selects, in feed order. */
  function SelectedLinks(entries: seq<FeedEntry>, keep: FeedEntry -> bool): seq<string> {
    if entries == [] then []
    else (if keep(entries[0]) then [entries[0].link] else []) + SelectedLinks(entries[1..], keep)
  }

  /** Reference definition: the links of the creation entries, in order. */
  function CreatedLinks(entries: seq<FeedEntry>): seq<string> {
    SelectedLinks(entries, ReportsCreation)
  }

  /** The links of a concatenation of feeds are the concatenation of their links. */
  lemma {:induction false} SelectedLinksAppend(a: seq<FeedEntry>, b: seq<FeedEntry>, keep: FeedEntry -> bool)
    ensures SelectedLinks(a + b, keep) == SelectedLinks(a, keep) + SelectedLinks(b, keep)
  {
    if a == [] {
      assert a + b == b;
    } else {
      assert (a + b)[0] == a[0];
      assert (a + b)[1..] == a[1..] + b;
      SelectedLinksAppend(a[1..], b, keep);
    }
  }

  /** A single entry contributes its link exactly when it is selected. */
  lemma SelectedLinksOne(e: FeedEntry, keep: FeedEntry -> bool)
    ensures SelectedLinks([e], keep) == if keep(e) then [e.link] else []
  {
    assert [e][1..] == [];
  }

  /** `_get_created_repositories`: the loop over the feed's entries. */
  method GetCreatedRepositories(entries: seq<FeedEntry>) returns (created: seq<string>)
    ensures created == CreatedLinks(entries)
  {
    created := [];
    for n := 0 to |entries|
      invariant created == SelectedLinks(entries[..n], ReportsCreation)
    {
      var entry := entries[n];
      var activity := MatchActivity(entry.content);
      assert activity.Some? && activity.value == "created" <==> ReportsCreation(entry);
      if activity.Some? && activity.value == "created" {
        created := created + [entry.link];
      }
      assert entries[..n + 1] == entries[..n] + [entry];
      SelectedLinksAppend(entries[..n], [entry], ReportsCreation);
      SelectedLinksOne(entry, ReportsCreation);
    }
    assert entries[..|entries|] == entries;
  }

  /** At most one link per entry. */
  lemma {:induction false} SelectedLinksBound(entries: seq<FeedEntry>, keep: FeedEntry -> bool)
    ensures |SelectedLinks(entries, keep)| <= |entries|
  {
    if entries != [] {
      SelectedLinksBound(entries[1..], keep);
    }
  }

  /** A link is reported exactly when some selected entry has that link. */
  lemma {:induction false} SelectedLinksMembers(entries: seq<FeedEntry>, keep: FeedEntry -> bool, l: string)
    ensures l in SelectedLinks(entries, keep) <==>
      exists k :: 0 <= k < |entries| && keep(entries[k]) && entries[k].link == l
  {
    if entries != [] {
      SelectedLinksMembers(entries[1..], keep, l);
      if l in SelectedLinks(entries[1..], keep) {
        var k :| 0 <= k < |entries[1..]| && keep(entries[1..][k]) && entries[1..][k].link == l;
        assert entries[k + 1] == entries[1..][k];
      }
      forall k | 0 < k < |entries| ensures entries[k] == entries[1..][k - 1] { }
    }
  }

  /** An entry that does not match the pattern, or whose word is not
      `created`, is skipped and leaves the result unchanged. */
  lemma SkipsOtherActivities(entries: seq<FeedEntry>, e: FeedEntry)
    requires MatchActivity(e.content).None? || MatchActivity(e.content).value != "created"
    ensures CreatedLinks(entries + [e]) == CreatedLinks(entries)
  {
    SelectedLinksAppend(entries, [e], ReportsCreation);
    SelectedLinksOne(e, ReportsCreation);
  }

  /** No deduplication: every creation entry adds its link, repeated links included. */
  lemma KeepsDuplicates(entries: seq<FeedEntry>, e: FeedEntry)
    requires ReportsCreation(e)
    ensures CreatedLinks(entries + [e, e]) == CreatedLinks(entries) + [e.link, e.link]
  {
    SelectedLinksAppend(entries, [e, e], ReportsCreation);
    SelectedLinksAppend([e], [e], ReportsCreation);
    assert [e] + [e] == [e, e];
    SelectedLinksOne(e, ReportsCreation);
  }

  /** A feed entry whose content is `<a href=X</a> created <a href=Y</a>`,
      with plain `X` and `Y`, is reported, and one with any other word is not. */
  lemma CreationEntry(x: string, w: string, y: string, link: string)
    requires Plain(x) && Plain(y) && IsWord(w)
    ensures ReportsCreation(FeedEntry(ActivityText(x, w, y), link)) <==> w == "created"
  {
    ActivityOfLinks(x, w, y);
  }

  lemma OneCreationEntry(x: string, y: string, link: string)
    requires Plain(x) && Plain(y)
    ensures CreatedLinks([FeedEntry(ActivityText(x, "created", y), link)]) == [link]
  {
    assert IsWord("created");
    CreationEntry(x, "created", y, link);
    SelectedLinksOne(FeedEntry(ActivityText(x, "created", y), link), ReportsCreation);
  }
}
