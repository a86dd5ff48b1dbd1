/** Reading the remote state: the paginated walk over the parent's children
 *  (`_dump_confluence_pages_to_json`) and the parent-id filter applied to
 *  the dump (`_get_confluence_child_pages`). Writing the dump file and
 *  reading it back is taken to be the identity. */
module PageList {
  import opened Remote

  /** `limit_records`: the page size of every listing call. */
  const PageLimit: nat := 100

  /** Each listed page tagged with the parent id it was requested for. */
  function Tag(pages: seq<RemotePage>, parentId: JsonValue): (r: seq<Entry>)
    ensures |r| == |pages|
    ensures forall i :: 0 <= i < |pages| ==> r[i] == Entry(parentId, pages[i].id, pages[i].title)
  {
    seq(|pages|, i requires 0 <= i < |pages| => Entry(parentId, pages[i].id, pages[i].title))
  }

  /** How many listing calls the walk makes over `n` children: one per
   *  non-empty page, that is ceil(n / 100), plus the final empty one. */
  function FetchCount(n: nat): nat
  {
    (n + PageLimit - 1) / PageLimit + 1
  }

  /** The first `count` listing calls, at offsets 0, 100, 200, ... */
  function Fetches(parentId: JsonValue, count: nat): (calls: seq<Call>)
    ensures |calls| == count
    ensures forall i :: 0 <= i < count ==> calls[i] == GetPageChildByType(parentId, i * PageLimit, PageLimit)
  {
    seq(count, i requires 0 <= i < count => GetPageChildByType(parentId, i * PageLimit, PageLimit))
  }

  function CalledAll(calls: seq<Call>): (events: seq<Event>)
    ensures |events| == |calls|
    ensures forall i :: 0 <= i < |calls| ==> events[i] == Called(calls[i])
  {
    seq(|calls|, i requires 0 <= i < |calls| => Called(calls[i]))
  }

  /** The position of the first call the gateway rejects, or the length of
   *  the list when it rejects none. */
  function FirstRejected(calls: seq<Call>, rejects: set<Call>): (k: nat)
    ensures k <= |calls|
    ensures forall j :: 0 <= j < k ==> calls[j] !in rejects
    ensures k < |calls| ==> calls[k] in rejects
    decreases |calls|
  {
    if calls == [] || calls[0] in rejects then 0 else 1 + FirstRejected(calls[1..], rejects)
  }

  datatype Dump = Dump(result: Result<seq<Entry>>, events: seq<Event>)

  /** The walk in closed form: the calls at offsets 0, 100, ... up to and
   *  including the first empty page; the whole listing, tagged, when none of
   *  them fails, and otherwise the first failure, after which nothing more
   *  is asked. */
  function DumpSpec(listing: seq<RemotePage>, rejects: set<Call>, parentId: JsonValue): (d: Dump)
    ensures d.result.Ok? ==> d.result.value == Tag(listing, parentId) && |d.events| == FetchCount(|listing|)
    ensures d.result.Err? ==>
              && d.result.error.RemoteError? && d.result.error.failed in rejects
              && 0 < |d.events| <= FetchCount(|listing|)
              && d.events[|d.events| - 1] == Called(d.result.error.failed)
  {
    var calls := Fetches(parentId, FetchCount(|listing|));
    var k := FirstRejected(calls, rejects);
    if k < |calls| then Dump(Err(RemoteError(calls[k])), CalledAll(calls[..k + 1]))
    else Dump(Ok(Tag(listing, parentId)), CalledAll(calls))
  }

  /** Every fetch before the last one returns a non-empty page, the last one
   *  returns the empty page, and the pages put together are the listing. */
  lemma PagesCoverListing(listing: seq<RemotePage>, i: nat)
    requires i < FetchCount(|listing|)
    ensures i < FetchCount(|listing|) - 1 ==> Page(listing, i * PageLimit, PageLimit) != []
    ensures i == FetchCount(|listing|) - 1 ==> Page(listing, i * PageLimit, PageLimit) == []
    ensures listing[..Min(i * PageLimit, |listing|)] + Page(listing, i * PageLimit, PageLimit)
         == listing[..Min((i + 1) * PageLimit, |listing|)]
  {
    var n := |listing|;
    if i < FetchCount(n) - 1 {
      assert i * PageLimit < n;
    } else {
      assert i * PageLimit >= n;
    }
  }

  /** 250 children are read with four calls: 100, 100 and 50 entries, then
   *  the empty page that ends the walk. */
  lemma TwoHundredFiftyChildren(listing: seq<RemotePage>, parentId: JsonValue)
    requires |listing| == 250
    ensures FetchCount(|listing|) == 4
    ensures |Page(listing, 0, PageLimit)| == 100
    ensures |Page(listing, 100, PageLimit)| == 100
    ensures |Page(listing, 200, PageLimit)| == 50
    ensures Page(listing, 300, PageLimit) == []
    ensures DumpSpec(listing, {}, parentId).events
         == [Called(GetPageChildByType(parentId, 0, 100)), Called(GetPageChildByType(parentId, 100, 100)),
             Called(GetPageChildByType(parentId, 200, 100)), Called(GetPageChildByType(parentId, 300, 100))]
  {
    var calls := Fetches(parentId, 4);
    assert FirstRejected(calls, {}) == 4;
  }

  /** The walk only ever lists children of the configured parent, 100 at a
   *  time. */
  lemma DumpOnlyLists(listing: seq<RemotePage>, rejects: set<Call>, parentId: JsonValue)
    ensures forall ev :: ev in DumpSpec(listing, rejects, parentId).events ==>
              ev.Called? && ev.call.GetPageChildByType? && ev.call.pageId == parentId && ev.call.limit == PageLimit
  {
    var calls := Fetches(parentId, FetchCount(|listing|));
    var k := FirstRejected(calls, rejects);
    var events := DumpSpec(listing, rejects, parentId).events;
    forall ev | ev in events
      ensures ev.Called? && ev.call.GetPageChildByType? && ev.call.pageId == parentId && ev.call.limit == PageLimit
    {
      var i :| 0 <= i < |events| && events[i] == ev;
      if k < |calls| {
        assert events == CalledAll(calls[..k + 1]);
        assert ev == Called(calls[i]);
      } else {
        assert ev == Called(calls[i]);
      }
    }
  }

  /** The walk after `fetched` answered, non-empty pages: the children
   *  gathered so far and the calls issued so far. */
  ghost predicate Walked(listing: seq<RemotePage>, rejects: set<Call>, parentId: JsonValue,
                         fetched: nat, childPages: seq<Entry>, events: seq<Event>)
  {
    var calls := Fetches(parentId, FetchCount(|listing|));
    && fetched < |calls|
    && childPages == Tag(listing[..Min(fetched * PageLimit, |listing|)], parentId)
    && events == CalledAll(calls[..fetched])
    && forall j :: 0 <= j < fetched ==> calls[j] !in rejects
  }

  /** A rejected listing call ends the walk with that call's error. */
  lemma WalkFails(listing: seq<RemotePage>, rejects: set<Call>, parentId: JsonValue,
                  fetched: nat, childPages: seq<Entry>, events: seq<Event>)
    requires Walked(listing, rejects, parentId, fetched, childPages, events)
    requires GetPageChildByType(parentId, fetched * PageLimit, PageLimit) in rejects
    ensures var c := GetPageChildByType(parentId, fetched * PageLimit, PageLimit);
            DumpSpec(listing, rejects, parentId) == Dump(Err(RemoteError(c)), events + [Called(c)])
  {
    var calls := Fetches(parentId, FetchCount(|listing|));
    CalledSnoc(calls, fetched);
    assert FirstRejected(calls, rejects) == fetched;
  }

  /** An answered page with children moves the walk on by one page. */
  lemma WalkSteps(listing: seq<RemotePage>, rejects: set<Call>, parentId: JsonValue,
                  fetched: nat, childPages: seq<Entry>, events: seq<Event>)
    requires Walked(listing, rejects, parentId, fetched, childPages, events)
    requires GetPageChildByType(parentId, fetched * PageLimit, PageLimit) !in rejects
    requires Page(listing, fetched * PageLimit, PageLimit) != []
    ensures var c := GetPageChildByType(parentId, fetched * PageLimit, PageLimit);
            Walked(listing, rejects, parentId, fetched + 1,
                   childPages + Tag(Page(listing, fetched * PageLimit, PageLimit), parentId), events + [Called(c)])
    ensures (fetched + 1) * PageLimit < |listing| + PageLimit
  {
    var calls := Fetches(parentId, FetchCount(|listing|));
    CalledSnoc(calls, fetched);
    PagesCoverListing(listing, fetched);
    TagAppend(listing[..Min(fetched * PageLimit, |listing|)], Page(listing, fetched * PageLimit, PageLimit), parentId);
    assert fetched * PageLimit < |listing|;
  }

  /** An answered empty page ends the walk with everything gathered. */
  lemma WalkEnds(listing: seq<RemotePage>, rejects: set<Call>, parentId: JsonValue,
                 fetched: nat, childPages: seq<Entry>, events: seq<Event>)
    requires Walked(listing, rejects, parentId, fetched, childPages, events)
    requires GetPageChildByType(parentId, fetched * PageLimit, PageLimit) !in rejects
    requires Page(listing, fetched * PageLimit, PageLimit) == []
    ensures var c := GetPageChildByType(parentId, fetched * PageLimit, PageLimit);
            DumpSpec(listing, rejects, parentId) == Dump(Ok(childPages), events + [Called(c)])
  {
    var n := |listing|;
    var calls := Fetches(parentId, FetchCount(n));
    CalledSnoc(calls, fetched);
    PagesCoverListing(listing, fetched);
    assert fetched + 1 == FetchCount(n) by {
      assert fetched * PageLimit >= n;
    }
    assert calls[..fetched + 1] == calls;
    assert FirstRejected(calls, rejects) == |calls|;
    assert listing[..n] == listing;
  }

  /** The inner loop of the walk: append one page's children, tagged, and
   *  report whether the page had any. */
  method CollectPage(childPages: seq<Entry>, page: seq<RemotePage>, parentId: JsonValue)
    returns (collected: seq<Entry>, hadResult: bool)
    ensures collected == childPages + Tag(page, parentId)
    ensures hadResult == (page != [])
  {
    collected := childPages;
    hadResult := false;
    for j := 0 to |page|
      invariant hadResult == (j > 0)
      invariant collected == childPages + Tag(page[..j], parentId)
    {
      var child := page[j];
      hadResult := true;
      collected := collected + [Entry(parentId, child.id, child.title)];
    }
    assert page[..|page|] == page;
  }

  lemma TagAppend(a: seq<RemotePage>, b: seq<RemotePage>, parentId: JsonValue)
    ensures Tag(a + b, parentId) == Tag(a, parentId) + Tag(b, parentId)
  {
  }

  lemma CalledSnoc(calls: seq<Call>, k: nat)
    requires k < |calls|
    ensures CalledAll(calls[..k + 1]) == CalledAll(calls[..k]) + [Called(calls[k])]
  {
  }

  /** `_dump_confluence_pages_to_json`: ask for pages of 100 at advancing
   *  offsets, tag every child with the configured parent id, and stop at the
   *  first page that yields nothing. */
  method DumpConfluencePages(gw: Gateway, parentId: JsonValue) returns (r: Result<seq<Entry>>)
    modifies gw
    ensures r == DumpSpec(gw.listing, gw.rejects, parentId).result
    ensures gw.trace == old(gw.trace) + DumpSpec(gw.listing, gw.rejects, parentId).events
  {
    ghost var fetched: nat := 0;
    var childPages: seq<Entry> := [];
    var startRecord: nat := 0;
    var limitRecords: nat := PageLimit;
    while true
      invariant limitRecords == PageLimit
      invariant startRecord == fetched * PageLimit < |gw.listing| + PageLimit
      invariant |gw.trace| >= |old(gw.trace)|
      invariant Walked(gw.listing, gw.rejects, parentId, fetched, childPages, gw.trace[|old(gw.trace)|..])
      invariant gw.trace == old(gw.trace) + gw.trace[|old(gw.trace)|..]
      decreases |gw.listing| + PageLimit - startRecord
    {
      ghost var before := gw.trace[|old(gw.trace)|..];
      var page := gw.GetPageChildByType(parentId, startRecord, limitRecords);
      assert gw.trace[|old(gw.trace)|..] == before + [Called(GetPageChildByType(parentId, startRecord, limitRecords))];
      if page.Err? {
        WalkFails(gw.listing, gw.rejects, parentId, fetched, childPages, before);
        return Err(page.error);
      }
      ghost var gathered := childPages;
      var hadResult;
      childPages, hadResult := CollectPage(childPages, page.value, parentId);
      if !hadResult {
        WalkEnds(gw.listing, gw.rejects, parentId, fetched, gathered, before);
        assert childPages == gathered;
        break;
      }
      WalkSteps(gw.listing, gw.rejects, parentId, fetched, gathered, before);
      startRecord := startRecord + limitRecords;
      fetched := fetched + 1;
    }
    r := Ok(childPages);
  }

  /** The filter's test: Python's `str(entry['Parent id']) != parent_page_id`
   *  negated. A string is never equal to a number, so when the configured id
   *  is a number no entry passes. */
  predicate IsImmediateChild(e: Entry, parentId: JsonValue)
  {
    JStr(PyStr(e.parentId)) == parentId
  }

  /** An entry passes exactly when the configured id is a string equal to
   *  the entry's stringified parent id; for an entry tagged with the
   *  configured id itself, exactly when that id is a string. */
  lemma ImmediateChildIff(e: Entry, parentId: JsonValue)
    ensures IsImmediateChild(e, parentId) <==> parentId.JStr? && PyStr(e.parentId) == parentId.s
    ensures e.parentId == parentId ==> (IsImmediateChild(e, parentId) <==> parentId.JStr?)
  {
  }

  /** The entries that pass the filter, in dump order. */
  function ChildPages(entries: seq<Entry>, parentId: JsonValue): (r: seq<Entry>)
    ensures |r| <= |entries|
    decreases |entries|
  {
    if entries == [] then
      []
    else
      var init := entries[..|entries| - 1];
      var last := entries[|entries| - 1];
      if IsImmediateChild(last, parentId) then ChildPages(init, parentId) + [last] else ChildPages(init, parentId)
  }

  /** The filter keeps exactly the entries that pass its test. */
  lemma {:induction false} ChildPagesMembers(entries: seq<Entry>, parentId: JsonValue, e: Entry)
    ensures e in ChildPages(entries, parentId) <==> e in entries && IsImmediateChild(e, parentId)
    decreases |entries|
  {
    if entries != [] {
      var init := entries[..|entries| - 1];
      assert entries == init + [entries[|entries| - 1]];
      ChildPagesMembers(init, parentId, e);
    }
  }

  /** `_get_confluence_child_pages`: keep, in order, the entries whose
   *  stringified parent id equals the configured one. */
  method GetConfluenceChildPages(entries: seq<Entry>, parentId: JsonValue) returns (result: seq<Entry>)
    ensures result == ChildPages(entries, parentId)
  {
    result := [];
    for i := 0 to |entries|
      invariant result == ChildPages(entries[..i], parentId)
    {
      assert entries[..i + 1][..i] == entries[..i];
      if JStr(PyStr(entries[i].parentId)) != parentId {
        continue;
      }
      result := result + [entries[i]];
    }
    assert entries[..|entries|] == entries;
  }

  /** The dump tags every entry with the configured id itself, so the filter
   *  keeps every entry when that id is a string and none when it is a
   *  number. */
  lemma {:induction false} FilterAllOrNothing(entries: seq<Entry>, parentId: JsonValue)
    requires forall e :: e in entries ==> e.parentId == parentId
    ensures ChildPages(entries, parentId) == if parentId.JStr? then entries else []
    decreases |entries|
  {
    if entries != [] {
      var init := entries[..|entries| - 1];
      assert entries == init + [entries[|entries| - 1]];
      FilterAllOrNothing(init, parentId);
    }
  }

  /** The filter applied to a fresh dump. */
  lemma DumpedChildren(listing: seq<RemotePage>, parentId: JsonValue)
    ensures ChildPages(Tag(listing, parentId), parentId) == if parentId.JStr? then Tag(listing, parentId) else []
  {
    FilterAllOrNothing(Tag(listing, parentId), parentId);
  }
}
