/** The per-document publish step (`_process_markdown_file`), the batch of
 *  publish jobs, and the check of their outcomes (`join_throwing_any_exception`).
 *
 *  The source directory is a map from file name to content; rendering and
 *  hashing are opaque deterministic functions carried in the environment; the
 *  state directory is an object holding the `.confluence` files (rendered
 *  payloads) and the `.lastSynced` files (stored digests), one entry per
 *  document name. Each function below specifies a step on values; the method
 *  of the same role performs it on the objects and is proved equal to it. */
module Sync {
  import opened Remote

  /** The configuration keys the engine reads. `confluence_space` is passed
   *  along with every child update but the wiki call never receives it;
   *  `threads` is `confluence_threads`, the size of the job pool. */
  datatype Config = Config(space: string, parentPageId: JsonValue, rootPageTitle: string, template: string, threads: int)

  /** Everything a run depends on besides the two stateful objects: the
   *  configuration, the files of the source directory, the template
   *  renderer (`None` when the template cannot be used) and the digest. */
  datatype Env = Env(
    cfg: Config,
    docs: map<string, string>,
    render: (string, string, string) -> Option<string>,
    digest: string -> string)

  /** SHA-256 as `hexdigest()` prints it: 64 lower-case hex digits. */
  predicate IsHexDigest(h: string)
  {
    |h| == 64 && forall i :: 0 <= i < |h| ==> h[i] in "0123456789abcdef"
  }

  ghost predicate DigestIsHex(digest: string -> string)
  {
    forall payload :: IsHexDigest(digest(payload))
  }

  /** The two per-document files of the state directory. */
  datatype Disk = Disk(rendered: map<string, string>, lastSynced: map<string, string>)

  class StateArea {
    /** `<state_dir>/<name>.confluence` */
    var rendered: map<string, string>
    /** `<state_dir>/<name>.lastSynced` */
    var lastSynced: map<string, string>

    constructor (disk: Disk)
      ensures Snapshot() == disk
    {
      rendered := disk.rendered;
      lastSynced := disk.lastSynced;
    }

    function Snapshot(): Disk
      reads this
    {
      Disk(rendered, lastSynced)
    }

    method WriteRendered(name: string, body: string)
      modifies this
      ensures rendered == old(rendered)[name := body]
      ensures lastSynced == old(lastSynced)
    {
      rendered := rendered[name := body];
    }

    method WriteHash(name: string, hash: string)
      modifies this
      ensures lastSynced == old(lastSynced)[name := hash]
      ensures rendered == old(rendered)
    {
      lastSynced := lastSynced[name := hash];
    }

    /** The stored digest, or the empty string when there is no file. */
    method ReadHash(name: string) returns (hash: string)
      ensures name in lastSynced ==> hash == lastSynced[name]
      ensures name !in lastSynced ==> hash == ""
    {
      hash := "";
      if name in lastSynced {
        hash := lastSynced[name];
      }
    }
  }

  const SkipPrefix: string := "Skipping (already synced): "
  const UpdatePrefix: string := "Updating: "

  /** How a document's page is written: as a child of the parent, found by
   *  title, or (for the root document) the parent page itself, by id. */
  datatype Target = AsChild | ById

  /** The wiki call that publishes a document. A child update is found by
   *  the document's name under the parent and never receives the configured
   *  space; the root document's update by id writes the parent page itself,
   *  under the configured root title. */
  function PublishCall(cfg: Config, name: string, target: Target, body: string): Call
  {
    match target
    case AsChild => UpdateOrCreate(cfg.parentPageId, name, body)
    case ById => UpdatePage(cfg.parentPageId, cfg.rootPageTitle, body)
  }

  lemma PublishCallArguments(cfg: Config, name: string, target: Target, body: string)
    ensures var c := PublishCall(cfg, name, target, body);
            && IsPublish(c) && c.body == body
            && (c.UpdatePage? <==> target == ById)
            && (c.UpdateOrCreate? ==> c.parentId == cfg.parentPageId && c.title == name)
            && (c.UpdatePage? ==> c.pageId == cfg.parentPageId && c.title == cfg.rootPageTitle)
  {
  }

  function PreviousHash(lastSynced: map<string, string>, name: string): string
  {
    if name in lastSynced then lastSynced[name] else ""
  }

  /** The payload a document renders to, if it exists and the template works. */
  function Rendered(env: Env, name: string): Option<string>
  {
    if name in env.docs then env.render(name, env.docs[name], env.cfg.template) else None
  }

  datatype Step = Step(outcome: Outcome, disk: Disk, events: seq<Event>)

  /** One document's sync. It touches only that document's two entries; the
   *  stored digest changes only after a publish call that went through, and
   *  then to the digest of exactly what was published; the only call it may
   *  make is that publish. */
  function SyncDoc(env: Env, rejects: set<Call>, disk: Disk, name: string, target: Target): Step
  {
    match Rendered(env, name)
    case None =>
      if name !in env.docs then Step(Fail(IOError(name)), disk, [])
      else Step(Fail(TemplateError(name)), disk, [])
    case Some(body) =>
      var written := disk.(rendered := disk.rendered[name := body]);
      var newHash := env.digest(body);
      if newHash == PreviousHash(disk.lastSynced, name) then
        Step(Pass, written, [Printed(SkipPrefix + name)])
      else
        var call := PublishCall(env.cfg, name, target, body);
        var events := [Printed(UpdatePrefix + name), Called(call)];
        if call in rejects then Step(Fail(RemoteError(call)), written, events)
        else Step(Pass, written.(lastSynced := disk.lastSynced[name := newHash]), events)
  }

  /** What one document's sync promises for any stored state. */
  lemma SyncDocFrame(env: Env, rejects: set<Call>, disk: Disk, name: string, target: Target)
    ensures var s := SyncDoc(env, rejects, disk, name, target);
            && s.disk.rendered - {name} == disk.rendered - {name}
            && s.disk.lastSynced - {name} == disk.lastSynced - {name}
            && (s.outcome.Fail? ==> s.disk.lastSynced == disk.lastSynced)
            && (s.disk.lastSynced != disk.lastSynced ==>
                  && s.outcome.Pass?
                  && name in s.disk.rendered && name in s.disk.lastSynced
                  && s.disk.lastSynced[name] == env.digest(s.disk.rendered[name])
                  && s.events == [Printed(UpdatePrefix + name), Called(PublishCall(env.cfg, name, target, s.disk.rendered[name]))])
            && (forall ev :: ev in s.events && ev.Called? ==>
                  name in s.disk.rendered && ev.call == PublishCall(env.cfg, name, target, s.disk.rendered[name]))
  {
    var s := SyncDoc(env, rejects, disk, name, target);
    match Rendered(env, name)
    case None =>
    case Some(body) =>
      assert s.disk.rendered == disk.rendered[name := body];
      assert s.disk.rendered - {name} == disk.rendered - {name};
      if s.disk.lastSynced != disk.lastSynced {
        assert s.disk.lastSynced == disk.lastSynced[name := env.digest(body)];
        assert s.disk.lastSynced - {name} == disk.lastSynced - {name};
      }
  }

  /** A document is in sync when its stored payload is its current rendering
   *  and the digest read back for it is that rendering's digest. */
  predicate Synced(env: Env, disk: Disk, name: string)
  {
    && Rendered(env, name).Some?
    && name in disk.rendered && disk.rendered[name] == Rendered(env, name).value
    && PreviousHash(disk.lastSynced, name) == env.digest(Rendered(env, name).value)
  }

  predicate SameEntry(m1: map<string, string>, m2: map<string, string>, n: string)
  {
    (n in m1 <==> n in m2) && (n in m1 ==> m1[n] == m2[n])
  }

  lemma OtherKeysAgree(m1: map<string, string>, m2: map<string, string>, k: string, n: string)
    requires m1 - {k} == m2 - {k} && n != k
    ensures SameEntry(m1, m2, n)
  {
    assert n in m1 <==> n in m1 - {k};
    assert n in m2 <==> n in m2 - {k};
    if n in m1 {
      assert (m1 - {k})[n] == m1[n];
      assert (m2 - {k})[n] == m2[n];
    }
  }

  /** A sync that passes leaves the document in sync. */
  lemma SyncDocSettles(env: Env, rejects: set<Call>, disk: Disk, name: string, target: Target)
    requires SyncDoc(env, rejects, disk, name, target).outcome.Pass?
    ensures Synced(env, SyncDoc(env, rejects, disk, name, target).disk, name)
  {
  }

  /** Re-processing an unchanged document with an unchanged template logs a
   *  skip, makes no gateway call and changes nothing. */
  lemma SyncedDocIsQuiet(env: Env, rejects: set<Call>, disk: Disk, name: string, target: Target)
    requires Synced(env, disk, name)
    ensures SyncDoc(env, rejects, disk, name, target) == Step(Pass, disk, [Printed(SkipPrefix + name)])
  {
    var body := Rendered(env, name).value;
    assert disk.rendered[name := body] == disk.rendered;
    assert disk.(rendered := disk.rendered) == disk;
  }

  /** The skip branch, for any stored state: when the rendering's digest
   *  equals the one read back, the step logs a skip, makes no call, passes
   *  and leaves the stored digest alone. */
  lemma SkipWhenEqual(env: Env, rejects: set<Call>, disk: Disk, name: string, target: Target)
    requires Rendered(env, name).Some?
    requires env.digest(Rendered(env, name).value) == PreviousHash(disk.lastSynced, name)
    ensures var s := SyncDoc(env, rejects, disk, name, target);
            && s.outcome == Pass
            && s.events == [Printed(SkipPrefix + name)]
            && s.disk.lastSynced == disk.lastSynced
            && s.disk.rendered == disk.rendered[name := Rendered(env, name).value]
  {
  }

  /** The publish branch, for any stored state (no digest file, or a stale
   *  one after an edit or a template change): when the digests differ, the
   *  step logs `Updating:` and makes exactly one publish call; the new digest
   *  is recorded exactly when that call goes through, and otherwise the step
   *  fails with the call's error and the stored digest is kept. */
  lemma PublishWhenDiffer(env: Env, rejects: set<Call>, disk: Disk, name: string, target: Target)
    requires Rendered(env, name).Some?
    requires env.digest(Rendered(env, name).value) != PreviousHash(disk.lastSynced, name)
    ensures var body := Rendered(env, name).value;
            var s := SyncDoc(env, rejects, disk, name, target);
            var call := PublishCall(env.cfg, name, target, body);
            && s.events == [Printed(UpdatePrefix + name), Called(call)]
            && s.disk.rendered == disk.rendered[name := body]
            && (call !in rejects ==> s.outcome == Pass && s.disk.lastSynced == disk.lastSynced[name := env.digest(body)])
            && (call in rejects ==> s.outcome == Fail(RemoteError(call)) && s.disk.lastSynced == disk.lastSynced)
  {
  }

  /** A document that has never been synced has no digest file, and the
   *  empty string is never a SHA-256 digest, so its first sync publishes
   *  exactly once and records the digest only if that call succeeds. */
  lemma FirstSyncPublishes(env: Env, rejects: set<Call>, disk: Disk, name: string, target: Target)
    requires DigestIsHex(env.digest)
    requires name !in disk.lastSynced
    requires Rendered(env, name).Some?
    ensures var body := Rendered(env, name).value;
            var s := SyncDoc(env, rejects, disk, name, target);
            var call := PublishCall(env.cfg, name, target, body);
            && s.events == [Printed(UpdatePrefix + name), Called(call)]
            && (call !in rejects ==> s.outcome == Pass && s.disk.lastSynced == disk.lastSynced[name := env.digest(body)])
            && (call in rejects ==> s.outcome == Fail(RemoteError(call)) && s.disk.lastSynced == disk.lastSynced)
  {
    var body := Rendered(env, name).value;
    assert IsHexDigest(env.digest(body));
    assert env.digest(body) != PreviousHash(disk.lastSynced, name);
    PublishWhenDiffer(env, rejects, disk, name, target);
  }

  /** Another document's sync leaves a synced document synced. */
  lemma SyncDocKeepsSynced(env: Env, rejects: set<Call>, disk: Disk, name: string, target: Target, other: string)
    requires Synced(env, disk, other)
    ensures Synced(env, SyncDoc(env, rejects, disk, name, target).disk, other)
  {
    var s := SyncDoc(env, rejects, disk, name, target);
    if other == name {
      SyncedDocIsQuiet(env, rejects, disk, name, target);
    } else {
      OtherKeysAgree(s.disk.rendered, disk.rendered, name, other);
      OtherKeysAgree(s.disk.lastSynced, disk.lastSynced, name, other);
    }
  }

  /** `_process_markdown_file`: render, hash, compare with the stored digest,
   *  and publish then record the digest only when they differ. */
  method ProcessMarkdownFile(env: Env, area: StateArea, gw: Gateway, name: string, target: Target)
    returns (o: Outcome)
    modifies area, gw
    ensures var s := SyncDoc(env, gw.rejects, old(area.Snapshot()), name, target);
            o == s.outcome && area.Snapshot() == s.disk && gw.trace == old(gw.trace) + s.events
  {
    if name !in env.docs {
      return Fail(IOError(name));
    }
    var markdownContent := env.docs[name];
    var content := env.render(name, markdownContent, env.cfg.template);
    if content.None? {
      return Fail(TemplateError(name));
    }
    area.WriteRendered(name, content.value);

    var newHash := env.digest(content.value);
    var previousHash := area.ReadHash(name);
    if newHash == previousHash {
      gw.Print(SkipPrefix + name);
      return Pass;
    }
    gw.Print(UpdatePrefix + name);

    var ok;
    match target {
      case ById =>
        ok := gw.UpdatePage(env.cfg.parentPageId, env.cfg.rootPageTitle, content.value);
      case AsChild =>
        ok := gw.UpdateOrCreate(env.cfg.parentPageId, name, content.value);
    }
    if !ok {
      return Fail(RemoteError(PublishCall(env.cfg, name, target, content.value)));
    }
    area.WriteHash(name, newHash);
    o := Pass;
  }

  datatype Batch = Batch(outcomes: seq<Outcome>, disk: Disk, events: seq<Event>)

  /** The pool jobs, one child sync per name, every one of them run. The
   *  entries of names outside the batch are untouched and the only calls are
   *  child updates titled with a name of the batch. */
  function SyncAll(env: Env, rejects: set<Call>, disk: Disk, names: seq<string>): (b: Batch)
    ensures |b.outcomes| == |names|
    ensures forall n :: n !in names ==>
              SameEntry(b.disk.rendered, disk.rendered, n) && SameEntry(b.disk.lastSynced, disk.lastSynced, n)
    ensures forall ev :: ev in b.events && ev.Called? ==> ev.call.UpdateOrCreate? && ev.call.title in names
    decreases |names|
  {
    if names == [] then
      Batch([], disk, [])
    else
      var init := names[..|names| - 1];
      var name := names[|names| - 1];
      assert names == init + [name];
      var b := SyncAll(env, rejects, disk, init);
      var s := SyncDoc(env, rejects, b.disk, name, AsChild);
      forall n | n != name
        ensures SameEntry(s.disk.rendered, b.disk.rendered, n) && SameEntry(s.disk.lastSynced, b.disk.lastSynced, n)
      {
        OtherKeysAgree(s.disk.rendered, b.disk.rendered, name, n);
        OtherKeysAgree(s.disk.lastSynced, b.disk.lastSynced, name, n);
      }
      Batch(b.outcomes + [s.outcome], s.disk, b.events + s.events)
  }

  /** Fail-fast after drain: every job that passed has its document in sync
   *  when the batch is over, whatever became of the others. */
  lemma {:induction false} PassedJobsStaySynced(env: Env, rejects: set<Call>, disk: Disk, names: seq<string>)
    ensures var b := SyncAll(env, rejects, disk, names);
            forall i :: 0 <= i < |names| && b.outcomes[i].Pass? ==> Synced(env, b.disk, names[i])
    decreases |names|
  {
    if names != [] {
      var init := names[..|names| - 1];
      var name := names[|names| - 1];
      var b0 := SyncAll(env, rejects, disk, init);
      var s := SyncDoc(env, rejects, b0.disk, name, AsChild);
      var b := SyncAll(env, rejects, disk, names);
      PassedJobsStaySynced(env, rejects, disk, init);
      forall i | 0 <= i < |names| && b.outcomes[i].Pass?
        ensures Synced(env, b.disk, names[i])
      {
        if i == |names| - 1 {
          SyncDocSettles(env, rejects, b0.disk, name, AsChild);
        } else {
          assert b.outcomes[i] == b0.outcomes[i] && names[i] == init[i];
          SyncDocKeepsSynced(env, rejects, b0.disk, name, AsChild, init[i]);
        }
      }
    }
  }

  /** A document already in sync stays in sync through a batch, and the batch
   *  never publishes it. */
  lemma {:induction false} SyncAllKeepsSynced(env: Env, rejects: set<Call>, disk: Disk, names: seq<string>, m: string)
    requires Synced(env, disk, m)
    ensures var b := SyncAll(env, rejects, disk, names);
            && Synced(env, b.disk, m)
            && forall ev :: ev in b.events && ev.Called? ==> ev.call.title != m
    decreases |names|
  {
    if names != [] {
      var init := names[..|names| - 1];
      var name := names[|names| - 1];
      var b0 := SyncAll(env, rejects, disk, init);
      SyncAllKeepsSynced(env, rejects, disk, init, m);
      SyncDocKeepsSynced(env, rejects, b0.disk, name, AsChild, m);
      if name == m {
        SyncedDocIsQuiet(env, rejects, b0.disk, name, AsChild);
      }
    }
  }

  /** A batch over documents that are all in sync is silent: every job
   *  passes, no call is made and nothing changes. */
  lemma {:induction false} SyncAllQuiet(env: Env, rejects: set<Call>, disk: Disk, names: seq<string>)
    requires forall n :: n in names ==> Synced(env, disk, n)
    ensures var b := SyncAll(env, rejects, disk, names);
            && b.disk == disk
            && (forall i :: 0 <= i < |names| ==> b.outcomes[i] == Pass)
            && (forall ev :: ev in b.events ==> !ev.Called?)
    decreases |names|
  {
    if names != [] {
      var init := names[..|names| - 1];
      var name := names[|names| - 1];
      assert names == init + [name];
      SyncAllQuiet(env, rejects, disk, init);
      SyncedDocIsQuiet(env, rejects, disk, name, AsChild);
    }
  }

  /** With every document renderable and no call rejected, every job
   *  passes. */
  lemma {:induction false} CleanBatchPasses(env: Env, disk: Disk, names: seq<string>)
    requires forall n :: n in names ==> Rendered(env, n).Some?
    ensures forall i :: 0 <= i < |names| ==> SyncAll(env, {}, disk, names).outcomes[i] == Pass
    decreases |names|
  {
    if names != [] {
      var init := names[..|names| - 1];
      assert names == init + [names[|names| - 1]];
      CleanBatchPasses(env, disk, init);
    }
  }

  /** Idempotence of the publish phase: after a batch in which every job
   *  passed, running the same batch again makes no gateway call and leaves
   *  the state directory as it was. */
  lemma BatchIdempotent(env: Env, rejects: set<Call>, rejects2: set<Call>, disk: Disk, names: seq<string>)
    requires var b := SyncAll(env, rejects, disk, names);
             forall i :: 0 <= i < |names| ==> b.outcomes[i].Pass?
    ensures var b := SyncAll(env, rejects, disk, names);
            var b2 := SyncAll(env, rejects2, b.disk, names);
            b2.disk == b.disk && forall ev :: ev in b2.events ==> !ev.Called?
  {
    var b := SyncAll(env, rejects, disk, names);
    PassedJobsStaySynced(env, rejects, disk, names);
    forall n | n in names
      ensures Synced(env, b.disk, n)
    {
      var i :| 0 <= i < |names| && names[i] == n;
    }
    SyncAllQuiet(env, rejects2, b.disk, names);
  }

  /** One more job appended to the batch. */
  lemma SyncAllSnoc(env: Env, rejects: set<Call>, disk: Disk, names: seq<string>, i: nat)
    requires i < |names|
    ensures var b := SyncAll(env, rejects, disk, names[..i]);
            var s := SyncDoc(env, rejects, b.disk, names[i], AsChild);
            SyncAll(env, rejects, disk, names[..i + 1]) == Batch(b.outcomes + [s.outcome], s.disk, b.events + s.events)
  {
    assert names[..i + 1][..i] == names[..i];
  }

  /** `_process_markdown_file` submitted once per name, in listing order. */
  method RunJobs(env: Env, area: StateArea, gw: Gateway, names: seq<string>) returns (outcomes: seq<Outcome>)
    modifies area, gw
    ensures var b := SyncAll(env, gw.rejects, old(area.Snapshot()), names);
            outcomes == b.outcomes && area.Snapshot() == b.disk && gw.trace == old(gw.trace) + b.events
  {
    outcomes := [];
    for i := 0 to |names|
      invariant var b := SyncAll(env, gw.rejects, old(area.Snapshot()), names[..i]);
                outcomes == b.outcomes && area.Snapshot() == b.disk && gw.trace == old(gw.trace) + b.events
    {
      SyncAllSnoc(env, gw.rejects, old(area.Snapshot()), names, i);
      ghost var b := SyncAll(env, gw.rejects, old(area.Snapshot()), names[..i]);
      ghost var s := SyncDoc(env, gw.rejects, b.disk, names[i], AsChild);
      var o := ProcessMarkdownFile(env, area, gw, names[i], AsChild);
      assert gw.trace == old(gw.trace) + (b.events + s.events);
      outcomes := outcomes + [o];
    }
    assert names[..|names|] == names;
  }

  /** The outcome the join reports: the first failure in submission order,
   *  or success when no job failed. */
  function FirstFailure(outcomes: seq<Outcome>): (o: Outcome)
    ensures o.Pass? <==> forall i :: 0 <= i < |outcomes| ==> outcomes[i].Pass?
    ensures o.Fail? ==> exists i :: 0 <= i < |outcomes| && outcomes[i] == o && forall j :: 0 <= j < i ==> outcomes[j].Pass?
    decreases |outcomes|
  {
    if outcomes == [] then Pass
    else if outcomes[0].Fail? then outcomes[0]
    else
      var rest := FirstFailure(outcomes[1..]);
      assert forall i :: 1 <= i < |outcomes| ==> outcomes[i] == outcomes[1..][i - 1];
      if rest.Fail? then
        var k :| 0 <= k < |outcomes| - 1 && outcomes[1..][k] == rest && forall j :: 0 <= j < k ==> outcomes[1..][j].Pass?;
        assert outcomes[k + 1] == rest;
        rest
      else
        rest
  }

  /** `join_throwing_any_exception`: wait for each job in submission order
   *  and re-raise the first failure met. */
  method JoinThrowingAnyException(outcomes: seq<Outcome>) returns (o: Outcome)
    ensures o == FirstFailure(outcomes)
  {
    for i := 0 to |outcomes|
      invariant forall j :: 0 <= j < i ==> outcomes[j].Pass?
    {
      if outcomes[i].Fail? {
        return outcomes[i];
      }
    }
    return Pass;
  }
}
