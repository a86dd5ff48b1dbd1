/** One run of the synchroniser (`_main` once the configuration is loaded):
 *  list the local documents, publish the root document to the parent page by
 *  id, publish every document as a child page, stop at the first failure,
 *  list the parent's children, keep the immediate ones and delete those that
 *  have no local document (and the one titled like the root document). */
module Engine {
  import opened Remote
  import opened Listing
  import opened PageList
  import opened Sync
  import opened Prune

  datatype RunResult = RunResult(outcome: Outcome, disk: Disk, events: seq<Event>)

  /** `set(markdown_files)` */
  function LocalNames(files: seq<string>): set<string>
  {
    set f | f in files
  }

  /** The reading and pruning phases on values: list the parent's children,
   *  keep the immediate ones and prune them against the local names. */
  function ListAndPrune(env: Env, listing: seq<RemotePage>, rejects: set<Call>, local: set<string>): Pruned
  {
    var dump := DumpSpec(listing, rejects, env.cfg.parentPageId);
    match dump.result
    case Err(e) => Pruned(Fail(e), dump.events)
    case Ok(entries) =>
      var pruned := PruneSpec(ChildPages(entries, env.cfg.parentPageId), local, rejects);
      Pruned(pruned.outcome, dump.events + pruned.events)
  }

  /** The publish phase on values: the root document by id, then the pool
   *  (which refuses a size below one), then one child job per local document,
   *  then the first failure among the jobs. */
  function PublishSpec(env: Env, rejects: set<Call>, disk: Disk, files: seq<string>): RunResult
  {
    var root := SyncDoc(env, rejects, disk, RootDocument, ById);
    if root.outcome.Fail? then
      RunResult(root.outcome, root.disk, root.events)
    else if env.cfg.threads < 1 then
      RunResult(Fail(PoolError(env.cfg.threads)), root.disk, root.events)
    else
      var batch := SyncAll(env, rejects, root.disk, files);
      RunResult(FirstFailure(batch.outcomes), batch.disk, root.events + batch.events)
  }

  /** A run over the local listing `files`, on values, phase by phase; a
   *  failing phase ends the run with its error and nothing after it
   *  happens. */
  function RunFiles(env: Env, listing: seq<RemotePage>, rejects: set<Call>, disk: Disk, files: seq<string>): RunResult
  {
    var published := PublishSpec(env, rejects, disk, files);
    if published.outcome.Fail? then
      published
    else
      var remote := ListAndPrune(env, listing, rejects, LocalNames(files));
      RunResult(remote.outcome, published.disk, published.events + remote.events)
  }

  /** A run over the source directory's entries `dirNames`. */
  function RunSpec(env: Env, listing: seq<RemotePage>, rejects: set<Call>, disk: Disk, dirNames: seq<string>): RunResult
  {
    RunFiles(env, listing, rejects, disk, MarkdownFiles(dirNames))
  }

  /** The publish part of `_main`: the root document through the by-id
   *  update, then the pool jobs, then the join. */
  method PublishPages(env: Env, area: StateArea, gw: Gateway, markdownFiles: seq<string>) returns (o: Outcome)
    modifies area, gw
    ensures var p := PublishSpec(env, gw.rejects, old(area.Snapshot()), markdownFiles);
            o == p.outcome && area.Snapshot() == p.disk && gw.trace == old(gw.trace) + p.events
  {
    ghost var disk0 := area.Snapshot();
    ghost var trace0 := gw.trace;
    var rootOutcome := ProcessMarkdownFile(env, area, gw, RootDocument, ById);
    if rootOutcome.Fail? {
      return rootOutcome;
    }
    if env.cfg.threads < 1 {
      return Fail(PoolError(env.cfg.threads));
    }
    ghost var root := SyncDoc(env, gw.rejects, disk0, RootDocument, ById);
    var outcomes := RunJobs(env, area, gw, markdownFiles);
    ghost var batch := SyncAll(env, gw.rejects, root.disk, markdownFiles);
    assert gw.trace == trace0 + (root.events + batch.events);
    o := JoinThrowingAnyException(outcomes);
  }

  /** The reading and pruning part of `_main`: dump the parent's children,
   *  read back the immediate ones, and delete the orphans. */
  method ReconcileRemote(env: Env, gw: Gateway, markdownFilesSet: set<string>) returns (o: Outcome)
    modifies gw
    ensures var p := ListAndPrune(env, gw.listing, gw.rejects, markdownFilesSet);
            o == p.outcome && gw.trace == old(gw.trace) + p.events
  {
    ghost var trace0 := gw.trace;
    ghost var spec := DumpSpec(gw.listing, gw.rejects, env.cfg.parentPageId);
    var dump := DumpConfluencePages(gw, env.cfg.parentPageId);
    if dump.Err? {
      return Fail(dump.error);
    }
    var confluenceChildPages := GetConfluenceChildPages(dump.value, env.cfg.parentPageId);

    o := PruneOrphans(gw, confluenceChildPages, markdownFilesSet);
    ghost var pruned := PruneSpec(confluenceChildPages, markdownFilesSet, gw.rejects);
    assert gw.trace == trace0 + (spec.events + pruned.events);
  }

  /** The listing phase of `_main`: the directory's `.md` names, sorted, and
   *  the set of them the prune consults. */
  method IdentifyMarkdownFiles(dirNames: seq<string>) returns (markdownFiles: seq<string>, markdownFilesSet: set<string>)
    ensures markdownFiles == MarkdownFiles(dirNames)
    ensures markdownFilesSet == LocalNames(markdownFiles)
    ensures forall n :: n in markdownFilesSet <==> n in dirNames && EndsWithMd(n)
  {
    var listed := GetMarkdownFiles(dirNames);
    markdownFiles := Sort(listed);
    markdownFilesSet := LocalNames(markdownFiles);
    ListingIsMarkdownFiles(dirNames, listed);
    SortIdempotent(MdOnly(dirNames));
    forall n ensures n in markdownFilesSet <==> n in dirNames && EndsWithMd(n) {
      assert n in markdownFiles <==> multiset(markdownFiles)[n] > 0;
      assert n in dirNames <==> multiset(dirNames)[n] > 0;
    }
  }

  /** `_main`: list the local documents, publish them, then reconcile the
   *  remote children with them. */
  method Run(env: Env, area: StateArea, gw: Gateway, dirNames: seq<string>) returns (o: Outcome)
    modifies area, gw
    ensures var r := RunSpec(env, gw.listing, gw.rejects, old(area.Snapshot()), dirNames);
            o == r.outcome && area.Snapshot() == r.disk && gw.trace == old(gw.trace) + r.events
  {
    ghost var disk0 := area.Snapshot();
    ghost var trace0 := gw.trace;
    var markdownFiles, markdownFilesSet := IdentifyMarkdownFiles(dirNames);
    ghost var published := PublishSpec(env, gw.rejects, disk0, markdownFiles);

    o := PublishPages(env, area, gw, markdownFiles);
    if o.Fail? {
      return;
    }
    ghost var remote := ListAndPrune(env, gw.listing, gw.rejects, markdownFilesSet);
    o := ReconcileRemote(env, gw, markdownFilesSet);
    assert gw.trace == trace0 + (published.events + remote.events);
  }

  /** Every publish call of the trace comes before every listing or removal
   *  call. */
  predicate PublishesFirst(events: seq<Event>)
  {
    forall i, j ::
      (0 <= i < |events| && 0 <= j < |events|
       && events[i].Called? && IsPublish(events[i].call)
       && events[j].Called? && !IsPublish(events[j].call)) ==> i < j
  }

  lemma PhasesOrdered(pub: seq<Event>, rest: seq<Event>)
    requires forall ev :: ev in pub && ev.Called? ==> IsPublish(ev.call)
    requires forall ev :: ev in rest && ev.Called? ==> !IsPublish(ev.call)
    ensures PublishesFirst(pub + rest)
  {
    var events := pub + rest;
    assert forall i :: 0 <= i < |pub| ==> events[i] == pub[i];
    assert forall i :: |pub| <= i < |events| ==> events[i] == rest[i - |pub|];
  }

  /** The calls of the publish phase all write page content. */
  lemma PublishPhaseOnlyPublishes(env: Env, rejects: set<Call>, disk: Disk, files: seq<string>)
    ensures forall ev :: ev in PublishSpec(env, rejects, disk, files).events && ev.Called? ==> IsPublish(ev.call)
  {
  }

  /** The calls after the publish phase never write page content: they list
   *  children or remove pages. */
  lemma LaterPhasesNeverPublish(env: Env, listing: seq<RemotePage>, rejects: set<Call>, local: set<string>)
    ensures forall ev :: ev in ListAndPrune(env, listing, rejects, local).events && ev.Called? ==>
              ev.call.GetPageChildByType? || ev.call.RemovePage?
  {
    var dump := DumpSpec(listing, rejects, env.cfg.parentPageId);
    DumpOnlyLists(listing, rejects, env.cfg.parentPageId);
    if dump.result.Ok? {
      PruneOnlyRemoves(ChildPages(dump.result.value, env.cfg.parentPageId), local, rejects);
    }
  }

  /** Pages are written before the remote listing is read, and nothing is
   *  deleted before every document has been published. */
  lemma PublishBeforePrune(env: Env, listing: seq<RemotePage>, rejects: set<Call>, disk: Disk, files: seq<string>)
    ensures PublishesFirst(RunFiles(env, listing, rejects, disk, files).events)
  {
    var published := PublishSpec(env, rejects, disk, files);
    PublishPhaseOnlyPublishes(env, rejects, disk, files);
    if published.outcome.Fail? {
      PhasesOrdered(published.events, []);
      assert published.events + [] == published.events;
    } else {
      LaterPhasesNeverPublish(env, listing, rejects, LocalNames(files));
      PhasesOrdered(published.events, ListAndPrune(env, listing, rejects, LocalNames(files)).events);
    }
  }

  /** A failed root document ends the run at once: no child page is
   *  published, nothing is listed or deleted, and no digest is recorded. */
  lemma RootFailureStopsRun(env: Env, listing: seq<RemotePage>, rejects: set<Call>, disk: Disk, files: seq<string>)
    requires SyncDoc(env, rejects, disk, RootDocument, ById).outcome.Fail?
    ensures var root := SyncDoc(env, rejects, disk, RootDocument, ById);
            RunFiles(env, listing, rejects, disk, files) == RunResult(root.outcome, root.disk, root.events)
    ensures var r := RunFiles(env, listing, rejects, disk, files);
            && r.disk.lastSynced == disk.lastSynced
            && forall ev :: ev in r.events && ev.Called? ==> ev.call.UpdatePage?
  {
  }

  /** A pool size below one makes `Pool` refuse to start once the root
   *  document is published: the run fails there, with no child job, no
   *  listing and no removal. */
  lemma BadPoolSizeStopsRun(env: Env, listing: seq<RemotePage>, rejects: set<Call>, disk: Disk, files: seq<string>)
    requires SyncDoc(env, rejects, disk, RootDocument, ById).outcome.Pass?
    requires env.cfg.threads < 1
    ensures var root := SyncDoc(env, rejects, disk, RootDocument, ById);
            RunFiles(env, listing, rejects, disk, files) == RunResult(Fail(PoolError(env.cfg.threads)), root.disk, root.events)
  {
  }

  /** A failed job fails the run with the first failure in listing order,
   *  after every job has run; nothing is listed or deleted. */
  lemma FailedJobStopsRun(env: Env, listing: seq<RemotePage>, rejects: set<Call>, disk: Disk, files: seq<string>, i: nat)
    requires var root := SyncDoc(env, rejects, disk, RootDocument, ById);
             var batch := SyncAll(env, rejects, root.disk, files);
             root.outcome.Pass? && env.cfg.threads >= 1 && i < |batch.outcomes| && batch.outcomes[i].Fail?
    ensures var root := SyncDoc(env, rejects, disk, RootDocument, ById);
            var batch := SyncAll(env, rejects, root.disk, files);
            RunFiles(env, listing, rejects, disk, files)
              == RunResult(FirstFailure(batch.outcomes), batch.disk, root.events + batch.events)
    ensures var root := SyncDoc(env, rejects, disk, RootDocument, ById);
            var batch := SyncAll(env, rejects, root.disk, files);
            var r := RunFiles(env, listing, rejects, disk, files);
            && r.outcome.Fail?
            && (exists k :: 0 <= k <= i && r.outcome == batch.outcomes[k])
            && r.disk == batch.disk
            && forall ev :: ev in r.events && ev.Called? ==> IsPublish(ev.call)
  {
    var root := SyncDoc(env, rejects, disk, RootDocument, ById);
    var batch := SyncAll(env, rejects, root.disk, files);
    var o := FirstFailure(batch.outcomes);
    assert o.Fail?;
    var k :| 0 <= k < |batch.outcomes| && batch.outcomes[k] == o && forall j :: 0 <= j < k ==> batch.outcomes[j].Pass?;
    assert k <= i;
    PublishPhaseOnlyPublishes(env, rejects, disk, files);
  }

  /** The root document is never published as a child page: a by-id step
   *  that passed leaves it in sync, whether it published or skipped, so its
   *  pool job, run on whatever the earlier jobs left, is a logged skip that
   *  changes nothing. */
  lemma ReadmeNeverUpsertedAsChild(env: Env, listing: seq<RemotePage>, rejects: set<Call>, disk: Disk, files: seq<string>)
    ensures forall ev :: ev in RunFiles(env, listing, rejects, disk, files).events && ev.Called? ==>
              !(ev.call.UpdateOrCreate? && ev.call.title == RootDocument)
    ensures var root := SyncDoc(env, rejects, disk, RootDocument, ById);
            root.outcome.Pass? ==>
              forall i :: 0 <= i < |files| && files[i] == RootDocument ==>
                var before := SyncAll(env, rejects, root.disk, files[..i]).disk;
                SyncDoc(env, rejects, before, RootDocument, AsChild) == Step(Pass, before, [Printed(SkipPrefix + RootDocument)])
  {
    var root := SyncDoc(env, rejects, disk, RootDocument, ById);
    PublishPhaseOnlyPublishes(env, rejects, disk, files);
    LaterPhasesNeverPublish(env, listing, rejects, LocalNames(files));
    if root.outcome.Pass? {
      SyncDocSettles(env, rejects, disk, RootDocument, ById);
      SyncAllKeepsSynced(env, rejects, root.disk, files, RootDocument);
      forall i | 0 <= i < |files| && files[i] == RootDocument
        ensures var before := SyncAll(env, rejects, root.disk, files[..i]).disk;
                SyncDoc(env, rejects, before, RootDocument, AsChild) == Step(Pass, before, [Printed(SkipPrefix + RootDocument)])
      {
        var before := SyncAll(env, rejects, root.disk, files[..i]).disk;
        SyncAllKeepsSynced(env, rejects, root.disk, files[..i], RootDocument);
        SyncedDocIsQuiet(env, rejects, before, RootDocument, AsChild);
      }
    }
  }

  /** After a run that passed, every local document and the root document
   *  are in sync. */
  lemma PassedRunSettles(env: Env, listing: seq<RemotePage>, rejects: set<Call>, disk: Disk, files: seq<string>)
    requires RunFiles(env, listing, rejects, disk, files).outcome.Pass?
    ensures var r := RunFiles(env, listing, rejects, disk, files);
            && Synced(env, r.disk, RootDocument)
            && forall n :: n in files ==> Synced(env, r.disk, n)
  {
    var root := SyncDoc(env, rejects, disk, RootDocument, ById);
    var batch := SyncAll(env, rejects, root.disk, files);
    SyncDocSettles(env, rejects, disk, RootDocument, ById);
    SyncAllKeepsSynced(env, rejects, root.disk, files, RootDocument);
    PassedJobsStaySynced(env, rejects, root.disk, files);
    forall n | n in files
      ensures Synced(env, batch.disk, n)
    {
      var i :| 0 <= i < |files| && files[i] == n;
    }
  }

  /** Running again with unchanged documents and template publishes nothing
   *  and leaves the state directory as the first run left it, whatever the
   *  remote side now lists or rejects. */
  lemma RunIdempotent(env: Env, listing: seq<RemotePage>, listing2: seq<RemotePage>,
                      rejects: set<Call>, rejects2: set<Call>, disk: Disk, files: seq<string>)
    requires RunFiles(env, listing, rejects, disk, files).outcome.Pass?
    ensures var r := RunFiles(env, listing, rejects, disk, files);
            var r2 := RunFiles(env, listing2, rejects2, r.disk, files);
            && r2.disk == r.disk
            && forall ev :: ev in r2.events && ev.Called? ==> !IsPublish(ev.call)
  {
    var r := RunFiles(env, listing, rejects, disk, files);
    PassedRunSettles(env, listing, rejects, disk, files);
    SyncedDocIsQuiet(env, rejects2, r.disk, RootDocument, ById);
    SyncAllQuiet(env, rejects2, r.disk, files);
    LaterPhasesNeverPublish(env, listing2, rejects2, LocalNames(files));
  }

  /** With a numeric `parent_page_id` the filter keeps nothing, so the run
   *  never deletes a page. */
  lemma IntegerParentIdPrunesNothing(env: Env, listing: seq<RemotePage>, rejects: set<Call>, disk: Disk, files: seq<string>)
    requires env.cfg.parentPageId.JInt?
    ensures forall ev :: ev in RunFiles(env, listing, rejects, disk, files).events && ev.Called? ==> !ev.call.RemovePage?
  {
    var dump := DumpSpec(listing, rejects, env.cfg.parentPageId);
    PublishPhaseOnlyPublishes(env, rejects, disk, files);
    LaterPhasesNeverPublish(env, listing, rejects, LocalNames(files));
    if dump.result.Ok? {
      DumpedChildren(listing, env.cfg.parentPageId);
    }
  }

  /** With a string `parent_page_id`, renderable documents and a gateway that
   *  accepts every call, the run passes and ends by deleting, in listing
   *  order, exactly the listed children that are orphans. */
  lemma CleanRunDeletesExactlyOrphans(env: Env, listing: seq<RemotePage>, disk: Disk, files: seq<string>)
    requires env.cfg.parentPageId.JStr? && env.cfg.threads >= 1
    requires Rendered(env, RootDocument).Some?
    requires forall n :: n in files ==> Rendered(env, n).Some?
    ensures var r := RunFiles(env, listing, {}, disk, files);
            var doomed := Deletions(Orphans(Tag(listing, env.cfg.parentPageId), LocalNames(files)));
            && r.outcome == Pass
            && |doomed| <= |r.events|
            && r.events[|r.events| - |doomed|..] == doomed
  {
    var root := SyncDoc(env, {}, disk, RootDocument, ById);
    assert root.outcome == Pass;
    var batch := SyncAll(env, {}, root.disk, files);
    CleanBatchPasses(env, root.disk, files);
    assert FirstFailure(batch.outcomes) == Pass;
    var dump := DumpSpec(listing, {}, env.cfg.parentPageId);
    assert dump.result == Ok(Tag(listing, env.cfg.parentPageId));
    DumpedChildren(listing, env.cfg.parentPageId);
    PruneDeletesExactlyOrphans(Tag(listing, env.cfg.parentPageId), LocalNames(files), {});
  }
}
