/** Reconciliation: the listed children of the parent page whose title is the
 *  root document's or is not among the local document names are deleted, one
 *  by one in listing order, each deletion logged before it is issued and
 *  never recursive. */
module Prune {
  import opened Remote
  import opened Listing

  const DeletePrefix: string := "Deleting: "

  /** The prune rule. The root document's page is the parent page itself, so
   *  a child titled like it is always deleted. */
  predicate IsOrphan(title: string, local: set<string>)
  {
    title == RootDocument || title !in local
  }

  /** The children the rule selects, in listing order. */
  function Orphans(children: seq<Entry>, local: set<string>): (r: seq<Entry>)
    ensures |r| <= |children|
    decreases |children|
  {
    if children == [] then
      []
    else
      var init := children[..|children| - 1];
      var last := children[|children| - 1];
      if IsOrphan(last.title, local) then Orphans(init, local) + [last] else Orphans(init, local)
  }

  /** The orphans are exactly the children the rule selects. */
  lemma {:induction false} OrphansMembers(children: seq<Entry>, local: set<string>, e: Entry)
    ensures e in Orphans(children, local) <==> e in children && IsOrphan(e.title, local)
    decreases |children|
  {
    if children != [] {
      var init := children[..|children| - 1];
      assert children == init + [children[|children| - 1]];
      OrphansMembers(init, local, e);
    }
  }

  /** What deleting one page leaves in the trace: the log line, then the
   *  non-recursive removal. */
  function Deletion(e: Entry): seq<Event>
  {
    [Printed(DeletePrefix + e.title), Called(RemovePage(e.id, false))]
  }

  function Deletions(es: seq<Entry>): seq<Event>
    decreases |es|
  {
    if es == [] then [] else Deletions(es[..|es| - 1]) + Deletion(es[|es| - 1])
  }

  datatype Pruned = Pruned(outcome: Outcome, events: seq<Event>)

  /** The prune loop on values. What it does is always a prefix of deleting
   *  every orphan in order, all of it when it passes; it fails only on a
   *  removal the gateway rejected. */
  function PruneSpec(children: seq<Entry>, local: set<string>, rejects: set<Call>): (p: Pruned)
    ensures p.outcome.Fail? ==> p.outcome.error.RemoteError? && p.outcome.error.failed.RemovePage?
                                && p.outcome.error.failed in rejects
    decreases |children|
  {
    if children == [] then
      Pruned(Pass, [])
    else
      var init := children[..|children| - 1];
      var last := children[|children| - 1];
      var p := PruneSpec(init, local, rejects);
      if IsOrphan(last.title, local) && p.outcome.Pass? then
        var call := RemovePage(last.id, false);
        Pruned(if call in rejects then Fail(RemoteError(call)) else Pass, p.events + Deletion(last))
      else
        p
  }

  /** What the prune does is always a prefix of deleting every orphan in
   *  order, and all of it when it passes. */
  lemma {:induction false} PruneIsPrefix(children: seq<Entry>, local: set<string>, rejects: set<Call>)
    ensures var p := PruneSpec(children, local, rejects);
            && p.events <= Deletions(Orphans(children, local))
            && (p.outcome.Pass? ==> p.events == Deletions(Orphans(children, local)))
    decreases |children|
  {
    if children != [] {
      var init := children[..|children| - 1];
      var last := children[|children| - 1];
      PruneIsPrefix(init, local, rejects);
      var orphans := Orphans(init, local);
      if IsOrphan(last.title, local) {
        DeletionsSnoc(orphans, last);
      }
    }
  }

  /** Once a removal has failed, the rest of the children are not looked at. */
  lemma {:induction false} PruneStopsAtFailure(children: seq<Entry>, local: set<string>, rejects: set<Call>, k: nat)
    requires k <= |children|
    requires PruneSpec(children[..k], local, rejects).outcome.Fail?
    ensures PruneSpec(children, local, rejects) == PruneSpec(children[..k], local, rejects)
    decreases |children|
  {
    if k < |children| {
      var init := children[..|children| - 1];
      assert init[..k] == children[..k];
      PruneStopsAtFailure(init, local, rejects, k);
    } else {
      assert children[..k] == children;
    }
  }

  /** When the gateway accepts every removal, the prune passes and its trace
   *  is exactly the orphans' deletions, in listing order. */
  lemma {:induction false} PruneDeletesExactlyOrphans(children: seq<Entry>, local: set<string>, rejects: set<Call>)
    requires forall e :: e in children ==> RemovePage(e.id, false) !in rejects
    ensures PruneSpec(children, local, rejects) == Pruned(Pass, Deletions(Orphans(children, local)))
    decreases |children|
  {
    if children != [] {
      var init := children[..|children| - 1];
      var last := children[|children| - 1];
      assert last in children;
      PruneDeletesExactlyOrphans(init, local, rejects);
      if IsOrphan(last.title, local) {
        DeletionsSnoc(Orphans(init, local), last);
      }
    }
  }

  lemma {:induction false} DeletionsFrom(es: seq<Entry>, ev: Event)
    requires ev in Deletions(es)
    ensures exists e :: e in es && ev in Deletion(e)
    decreases |es|
  {
    var init := es[..|es| - 1];
    if ev in Deletions(init) {
      DeletionsFrom(init, ev);
      var e :| e in init && ev in Deletion(e);
      assert e in es;
    } else {
      assert ev in Deletion(es[|es| - 1]);
    }
  }

  /** The only calls the prune makes are removals, none of them recursive. */
  lemma PruneOnlyRemoves(children: seq<Entry>, local: set<string>, rejects: set<Call>)
    ensures forall ev :: ev in PruneSpec(children, local, rejects).events && ev.Called? ==>
              ev.call.RemovePage? && !ev.call.recursive
  {
    var p := PruneSpec(children, local, rejects);
    var all := Deletions(Orphans(children, local));
    PruneIsPrefix(children, local, rejects);
    forall ev | ev in p.events && ev.Called?
      ensures ev.call.RemovePage? && !ev.call.recursive
    {
      assert p.events == all[..|p.events|];
      assert ev in all;
      DeletionsFrom(Orphans(children, local), ev);
    }
  }

  /** A child the rule keeps is never removed (page ids being unique). */
  lemma KeptChildUntouched(children: seq<Entry>, local: set<string>, rejects: set<Call>, kept: Entry)
    requires forall i, j :: 0 <= i < |children| && 0 <= j < |children| && children[i].id == children[j].id ==> i == j
    requires kept in children && !IsOrphan(kept.title, local)
    ensures forall recursive :: Called(RemovePage(kept.id, recursive)) !in PruneSpec(children, local, rejects).events
  {
    var p := PruneSpec(children, local, rejects);
    var all := Deletions(Orphans(children, local));
    PruneIsPrefix(children, local, rejects);
    forall recursive
      ensures Called(RemovePage(kept.id, recursive)) !in p.events
    {
      var ev := Called(RemovePage(kept.id, recursive));
      if ev in p.events {
        assert p.events == all[..|p.events|];
        assert ev in all;
        DeletionsFrom(Orphans(children, local), ev);
        var e :| e in Orphans(children, local) && ev in Deletion(e);
        OrphansMembers(children, local, e);
        assert false;
      }
    }
  }

  /** A rejected removal is not swallowed: a prune that passed had every
   *  selected child's removal accepted. */
  lemma {:induction false} RejectedRemovalFailsPrune(children: seq<Entry>, local: set<string>, rejects: set<Call>)
    ensures PruneSpec(children, local, rejects).outcome.Pass? ==>
              forall e :: e in Orphans(children, local) ==> RemovePage(e.id, false) !in rejects
    decreases |children|
  {
    if children != [] {
      var init := children[..|children| - 1];
      var last := children[|children| - 1];
      RejectedRemovalFailsPrune(init, local, rejects);
      assert children == init + [last];
      OrphansSnoc(init, last, local);
    }
  }

  lemma OrphansSnoc(init: seq<Entry>, last: Entry, local: set<string>)
    ensures Orphans(init + [last], local) == Orphans(init, local) + if IsOrphan(last.title, local) then [last] else []
  {
    assert (init + [last])[..|init|] == init;
  }

  lemma DeletionsSnoc(init: seq<Entry>, last: Entry)
    ensures Deletions(init + [last]) == Deletions(init) + Deletion(last)
  {
    assert (init + [last])[..|init|] == init;
  }

  lemma {:induction false} OrphansExample(a: Entry, b: Entry, c: Entry, readme: Entry, local: set<string>)
    requires !IsOrphan(a.title, local) && !IsOrphan(b.title, local)
    requires IsOrphan(c.title, local) && IsOrphan(readme.title, local)
    ensures Orphans([a, b, c, readme], local) == [c, readme]
  {
    assert Orphans([a], local) == [] by {
      OrphansSnoc([], a, local);
      assert [] + [a] == [a];
    }
    assert Orphans([a, b], local) == [] by {
      OrphansSnoc([a], b, local);
      assert [a] + [b] == [a, b];
    }
    assert Orphans([a, b, c], local) == [c] by {
      OrphansSnoc([a, b], c, local);
      assert [a, b] + [c] == [a, b, c];
    }
    OrphansSnoc([a, b, c], readme, local);
    assert [a, b, c] + [readme] == [a, b, c, readme];
  }

  lemma {:induction false} DeletionsPair(c: Entry, readme: Entry)
    ensures Deletions([c, readme]) == Deletion(c) + Deletion(readme)
  {
    DeletionsSnoc([], c);
    DeletionsSnoc([c], readme);
    assert [] + [c] == [c] && [c] + [readme] == [c, readme];
  }

  /** Local {A.md, B.md} against remote children A.md, B.md, C.md and
   *  README.md: exactly C.md and README.md are deleted, in that order. */
  lemma {:induction false} PruneExample(a: Entry, b: Entry, c: Entry, readme: Entry)
    requires a.title == "A.md" && b.title == "B.md" && c.title == "C.md" && readme.title == "README.md"
    ensures PruneSpec([a, b, c, readme], {"A.md", "B.md"}, {})
         == Pruned(Pass, [Printed("Deleting: C.md"), Called(RemovePage(c.id, false)),
                          Printed("Deleting: README.md"), Called(RemovePage(readme.id, false))])
  {
    var local := {"A.md", "B.md"};
    var children := [a, b, c, readme];
    assert Orphans(children, local) == [c, readme] by {
      assert "C.md" != "A.md" && "C.md" != "B.md" && "README.md" != "A.md" && "README.md" != "B.md";
      OrphansExample(a, b, c, readme, local);
    }
    PruneDeletesExactlyOrphans(children, local, {});
    assert PruneSpec(children, local, {}) == Pruned(Pass, Deletions([c, readme]));
    DeletionsPair(c, readme);
    assert Deletion(c) == [Printed("Deleting: C.md"), Called(RemovePage(c.id, false))] by {
      assert DeletePrefix + c.title == "Deleting: C.md";
    }
    assert Deletion(readme) == [Printed("Deleting: README.md"), Called(RemovePage(readme.id, false))] by {
      assert DeletePrefix + readme.title == "Deleting: README.md";
    }
  }

  /** One more child in the prune loop, while nothing has failed yet. */
  lemma PruneSnoc(children: seq<Entry>, i: nat, local: set<string>, rejects: set<Call>)
    requires i < |children|
    requires PruneSpec(children[..i], local, rejects).outcome == Pass
    ensures var p := PruneSpec(children[..i], local, rejects);
            var call := RemovePage(children[i].id, false);
            PruneSpec(children[..i + 1], local, rejects)
              == if !IsOrphan(children[i].title, local) then p
                 else Pruned(if call in rejects then Fail(RemoteError(call)) else Pass, p.events + Deletion(children[i]))
  {
    assert children[..i + 1][..i] == children[..i];
    assert children[..i + 1][i] == children[i];
  }

  /** `_delete_confluence_page`: log the deletion, then remove the page
   *  without its descendants. */
  method DeleteConfluencePage(gw: Gateway, pageId: string, pageTitle: string) returns (ok: bool)
    modifies gw
    ensures ok == (RemovePage(pageId, false) !in gw.rejects)
    ensures gw.trace == old(gw.trace) + [Printed(DeletePrefix + pageTitle), Called(RemovePage(pageId, false))]
  {
    gw.Print(DeletePrefix + pageTitle);
    ok := gw.RemovePage(pageId, false);
  }

  /** The prune loop of `_main`. */
  method PruneOrphans(gw: Gateway, children: seq<Entry>, local: set<string>) returns (o: Outcome)
    modifies gw
    ensures var p := PruneSpec(children, local, gw.rejects);
            o == p.outcome && gw.trace == old(gw.trace) + p.events
  {
    for i := 0 to |children|
      invariant PruneSpec(children[..i], local, gw.rejects).outcome == Pass
      invariant gw.trace == old(gw.trace) + PruneSpec(children[..i], local, gw.rejects).events
    {
      var child := children[i];
      PruneSnoc(children, i, local, gw.rejects);
      if child.title == RootDocument || child.title !in local {
        var ok := DeleteConfluencePage(gw, child.id, child.title);
        if !ok {
          PruneStopsAtFailure(children, local, gw.rejects, i + 1);
          return Fail(RemoteError(RemovePage(child.id, false)));
        }
      }
    }
    assert children[..|children|] == children;
    o := Pass;
  }
}
