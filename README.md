# confluence-markdown-sync, modelled in Dafny

This project models the sync engine of `confluence-markdown-sync` (`main.py`). The engine publishes a directory of
Markdown documents as child pages of one Confluence parent page and remembers what it last published. It then deletes
the remote children that no longer have a local document. The model covers these steps:

- **Configuration pre-pass** (`config_text.dfy`). The configuration file is read line by line. Every line whose
  whitespace-stripped form starts with `//` becomes the empty string, and the pieces are joined for the JSON parser.
- **Local listing** (`listing.dfy`). This is the list of directory entries ending in `.md`, in Python's string order.
- **Publish step** (`sync.dfy`). Each document is rendered through the page template into
  `<state_dir>/<name>.confluence`, and the rendering is hashed. If the hash equals the one in
  `<state_dir>/<name>.lastSynced`, the step skips. Otherwise it logs `Updating:`, publishes, and only then stores the
  new hash.
  - `README.md` is published first, by id, onto the parent page itself, with the configured root title.
  - Then the job pool is created; a `confluence_threads` below one makes it raise, which ends the run.
  - Then every listed document is published as a child page through the pool. `README.md` is among them. A root
    step that passed left it in sync, whether it published or skipped, so its job skips.
  - The join reports the first failure in submission order.
- **Remote listing** (`page_list.dfy`). The parent's children are read 100 at a time at offsets 0, 100, 200, … until
  a request returns nothing. Each entry is tagged with the configured parent id, and the tagged list is filtered on
  `str(Parent id) == parent_page_id`.
- **Prune** (`prune.dfy`). Every remaining child whose title is `README.md` or is not a local name is logged and
  then removed, non-recursively, in listing order.
- **Whole run** (`engine.dfy`). The phases above are tied together in `_main`'s order. Any failure ends the run.

State that Python keeps in files and objects is modelled with classes:

- `Sync.StateArea` holds the `.confluence` and `.lastSynced` files as two maps keyed by document name.
- `Remote.Gateway` stands for the Confluence client. It answers listings from a fixed snapshot of the parent's
  children, fails the calls it is given as rejected, and keeps one trace of every call issued and every decision
  line printed.

Every method is proved equal to a function on values (`SyncDoc`, `SyncAll`, `DumpSpec`, `ChildPages`, `PruneSpec`,
`RunSpec`), and the properties are proved about those functions.

Rendering (jinja2) and SHA-256 are abstract deterministic functions carried in `Sync.Env`. `render` yields `None`
when the template cannot be used. `Sync.DigestIsHex` states the one fact about SHA-256 that the model relies on: its
digest is 64 lower-case hex digits, so it is never the empty string.

Some behaviour of the code is followed as written:

- **Four requests for 250 children.** The walk stops only on an empty page, so 250 children take four listing
  requests (100, 100, 50, then 0 entries), not three.
- **No space in child updates.** `update_or_create` is called without the configured space, though the space is
  threaded through every call (`main.py:126`).
- **By-id update arguments.** The `README.md` update by id uses `parent_page_id` as the page id and
  `root_page_title` as the title (`main.py:184-185`).
- **The parent-id filter.** The dump tags every entry with the configured `parent_page_id` itself. The filter
  therefore keeps every entry when that id is a JSON string and none when it is a JSON number, because Python's
  `str(123) != 123`. With a numeric id nothing is ever pruned.

## Model

| member | source | states |
|---|---|---|
| `ConfigText.TrimStartSpec` | main.py:28 | the leading-whitespace half of `str.strip()`: a suffix of the line that starts with a non-space, all of whose dropped characters are spaces |
| `ConfigText.TrimEndSpec` | main.py:28 | the trailing half of `str.strip()`: a prefix that keeps every non-space character and ends with a non-space |
| `ConfigText.Strip` | main.py:28 | `str.strip()`: the leading and then the trailing whitespace removed |
| `ConfigText.IsCommentLine` | main.py:28-29 | the loop's test: the whitespace-stripped line starts with `//` |
| `ConfigText.CommentLineIff` | main.py:28-29 | a line is a comment exactly when its first non-whitespace characters are `//` (trailing whitespace is irrelevant) |
| `ConfigText.SplitLines` | main.py:27 | the lines iterated over a file join back to the file, are non-empty, and carry `\n` only as their last character (every line but the last ends with one) |
| `ConfigText.Uncommented` | main.py:28-32 | the lines that are not comment lines, in their order; never more lines than the file has |
| `ConfigText.Concat` | main.py:33 | `''.join(pieces)`: the pieces joined in order |
| `ConfigText.UncommentedMembers` | main.py:28-32 | a line is kept exactly when it is in the file and is not a comment line |
| `ConfigText.UncommentedAppend` | main.py:27-32 | the per-line decision is independent of the other lines: filtering two halves and joining equals filtering the whole |
| `ConfigText.StripComments` | main.py:23-33 | the text handed to `json.loads` is the concatenation of the non-comment lines, verbatim |
| `ConfigText.CommentLineVanishes` | main.py:29-30 | a comment line vanishes entirely, its newline included; its neighbours are joined as if it never existed |
| `ConfigText.CommentFreeTextUnchanged` | main.py:23-33 | a file without comment lines reaches the parser unchanged |
| `ConfigText.SplitConcat` | main.py:27 | lines of the shape file iteration yields are split back exactly as they were joined |
| `ConfigText.UncommentedShaped` | main.py:27-32 | dropping comment lines keeps that line shape |
| `ConfigText.LoadJsonWithComments` | main.py:23-33 | the text handed to `json.loads` is the concatenation of the non-comment lines of the file as iterated |
| `ConfigText.StrippedTextIsCommentFree` | main.py:23-33 | the parser receives exactly the file's non-comment lines, line for line, none of them a comment, so the pre-pass over its own output changes nothing |
| `Listing.MdOnly` | main.py:37-40 | each name occurs as often as in the directory if it ends in `.md`, and not at all otherwise |
| `Listing.EndsWithMd` | main.py:38 | `name.endswith('.md')` |
| `Listing.EndsWithMdExamples` | main.py:38 | every name with the `.md` suffix is listed; `.MD` and `.md.bak` are not (the test is case-sensitive and looks only at the end) |
| `Listing.LexLe` | main.py:41 | Python's `<=` on strings: code point by code point, a proper prefix first |
| `Listing.Insert` | main.py:41 | inserting into a sorted list keeps it sorted and adds exactly that one name |
| `Listing.Sort` | main.py:41 | `list.sort()`: the result is ordered by Python's string order and is a permutation of the input |
| `Listing.LexLeTotal` | main.py:41 | Python's string order compares any two names |
| `Listing.LexLeTrans` | main.py:41 | Python's string order is transitive |
| `Listing.LexLeAntisym` | main.py:41 | two names each ordered before the other are equal |
| `Listing.SortedUnique` | main.py:166 | two ordered arrangements of the same names are identical |
| `Listing.SortIdempotent` | main.py:166 | `sorted()` over the already sorted listing changes nothing |
| `Listing.ListingIsMarkdownFiles` | main.py:35-42 | any ordered list holding exactly the `.md` names of the directory, with their multiplicities, is the run's listing |
| `Listing.MarkdownFiles` | main.py:166 | the run's listing: the directory's `.md` names, sorted |
| `Listing.GetMarkdownFiles` | main.py:35-42 | the listing is ordered and holds every `.md` entry of the directory as often as it occurs there, and nothing else |
| `Engine.IdentifyMarkdownFiles` | main.py:165-167 | the run's listing is the directory's sorted `.md` names, and the set consulted by the prune holds exactly the `.md` entries of the directory |
| `Engine.LocalNames` | main.py:167 | `set(markdown_files)`: the names of the listing |
| `PageList.FirstRejected` | main.py:48-51 | the position of the first failing listing request: every earlier request succeeds, and the one at that position fails |
| `PageList.DumpSpec` | main.py:44-58 | a finished walk returns the whole listing tagged with the configured id after exactly ceil(n/100)+1 requests; a failed one ends with the rejected request, at most that many requests in |
| `Remote.Gateway.GetPageChildByType` | main.py:50-51 | one listing request, recorded in the trace; it answers the slice of the parent's children at that offset, or fails if rejected |
| `PageList.PagesCoverListing` | main.py:48-56 | every request before the last returns a non-empty page, the last returns an empty one, and the pages put together are the parent's children in order |
| `PageList.TwoHundredFiftyChildren` | main.py:44-56 | 250 children are read with four requests, at offsets 0, 100, 200 and 300, returning 100, 100, 50 and 0 entries |
| `PageList.DumpOnlyLists` | main.py:50-51 | the walk only lists children of the configured parent, 100 at a time |
| `PageList.WalkFails` | main.py:50-51 | a rejected listing request ends the walk with that request's error, as the last event of the trace |
| `PageList.WalkSteps` | main.py:50-58 | a page with children extends the gathered entries by that page, tagged, and the walk moves on by 100 |
| `PageList.WalkEnds` | main.py:50-56 | the first empty page ends the walk with every child of the parent gathered, in order |
| `PageList.CollectPage` | main.py:50-53 | one page's children are appended, tagged with the configured parent id, and `had_result` is set exactly when the page is non-empty |
| `PageList.DumpConfluencePages` | main.py:44-58 | the dump is every child of the parent, in order, tagged with the configured parent id. It is obtained by the requests up to and including the first empty page, or else ends with the first failing request |
| `PageList.ChildPagesMembers` | main.py:64-68 | an entry is kept exactly when its stringified parent id equals the configured one |
| `PageList.GetConfluenceChildPages` | main.py:60-69 | the loop keeps, in order, exactly the entries passing the parent-id test |
| `PageList.FilterAllOrNothing` | main.py:66 | over entries tagged with the configured id, the filter keeps all of them when the id is a string and none when it is a number |
| `PageList.DumpedChildren` | main.py:209-214 | the filter applied to a fresh dump returns the whole dump for a string id and nothing for a numeric one |
| `PageList.IsImmediateChild` | main.py:66 | `str(entry['Parent id']) == parent_page_id` |
| `PageList.ImmediateChildIff` | main.py:66 | an entry passes exactly when the configured id is a string equal to the entry's stringified parent id; an entry tagged with the configured id passes exactly when that id is a string |
| `Remote.PyStr` | main.py:66 | Python's `str()` of a configuration scalar: a string as it is, an integer in decimal with a leading `-` when negative |
| `PageList.ChildPages` | main.py:63-68 | the dump entries that pass the parent-id test, in dump order; never more than the dump |
| `Sync.StateArea.ReadHash` | main.py:83-86 | the stored digest when the `.lastSynced` file exists, the empty string otherwise |
| `Sync.StateArea.WriteRendered` | main.py:113-114 | writes one document's `.confluence` file and nothing else |
| `Sync.StateArea.WriteHash` | main.py:104-105 | writes one document's `.lastSynced` file and nothing else |
| `Sync.Rendered` | main.py:107-114 | the payload a document renders to, or nothing when its source file is missing or the template cannot be used |
| `Sync.PreviousHash` | main.py:83-86 | the stored digest when the `.lastSynced` file exists, `''` otherwise |
| `Sync.PublishCall` | main.py:116-126 | the publish call of a step: `update_or_create(parent_page_id, name, payload)` for a child, `update_page(parent_page_id, root_page_title, payload)` for the root document |
| `Sync.PublishCallArguments` | main.py:116-126 | a child update goes to the parent by the document's name, without the space; the root update by id writes the parent page itself under `root_page_title`; both carry the rendered payload |
| `Sync.SyncDoc` | main.py:71-105 | one document's step on values: a missing source file or unusable template fails before anything is written; otherwise the rendering is stored, and the step skips on equal digests or publishes, recording the digest only when the call goes through |
| `Remote.Gateway.UpdatePage` | main.py:120 | one `update_page` call, recorded in the trace; it succeeds unless rejected |
| `Remote.Gateway.UpdateOrCreate` | main.py:126 | one `update_or_create` call, recorded in the trace; it succeeds unless rejected |
| `Sync.SyncDocFrame` | main.py:71-105 | one document's sync touches only its own two files; a failure never records a digest; a recorded digest follows a successful publish of exactly the stored payload, after the `Updating:` line; the only call is that publish |
| `Sync.SkipWhenEqual` | main.py:82-91 | for any stored state, equal digests mean a logged skip, no call, a pass and an unchanged `.lastSynced` |
| `Sync.PublishWhenDiffer` | main.py:82-105 | for any stored state (no digest file or a stale one), differing digests mean `Updating:` and exactly one publish call; the new digest is recorded exactly when that call succeeds, and a rejected call fails the step with the digest kept |
| `Sync.ProcessMarkdownFile` | main.py:71-105 | the outcome, both state files and the console/call trace are those of `SyncDoc` |
| `Sync.OtherKeysAgree` | main.py:74-75 | helper: two maps equal outside one name agree at every other name, which is how the per-name state files stay independent |
| `Sync.SyncDocSettles` | main.py:89-105 | after a sync that passed, the stored payload is the current rendering and the stored digest is its digest |
| `Sync.SyncedDocIsQuiet` | main.py:89-91 | re-processing a synced document logs a skip, makes no call and changes nothing |
| `Sync.FirstSyncPublishes` | main.py:82-105 | a document without a `.lastSynced` file is published once; its digest is recorded exactly when that call succeeds |
| `Sync.SyncDocKeepsSynced` | main.py:72-75 | another document's sync leaves a synced document synced |
| `Sync.SyncAll` | main.py:188-200 | one child job per listed document; entries of other names are untouched; the only calls are child updates titled with a listed name |
| `Sync.RunJobs` | main.py:190-200 | outcomes, state files and trace are those of `SyncAll` |
| `Sync.PassedJobsStaySynced` | main.py:188-201 | every job that passed leaves its document synced when the batch is over, whatever happened to the others |
| `Sync.SyncAllKeepsSynced` | main.py:188-200 | a synced document stays synced through a batch and is never published by it |
| `Sync.SyncAllQuiet` | main.py:188-200 | a batch over synced documents passes every job, makes no call and changes nothing |
| `Sync.CleanBatchPasses` | main.py:188-200 | with every document renderable and no call failing, every job passes |
| `Sync.BatchIdempotent` | main.py:188-201 | re-running a batch in which every job passed makes no call and leaves the state files as they were |
| `Sync.FirstFailure` | main.py:146-151 | the join passes exactly when every job passed; otherwise it reports a failure with only passes before it |
| `Sync.JoinThrowingAnyException` | main.py:146-151 | the loop re-raises exactly `FirstFailure` of the job outcomes |
| `Prune.OrphansMembers` | main.py:221-223 | a child is selected exactly when its title is `README.md` or is not a local name |
| `Prune.IsOrphan` | main.py:223 | the prune rule: the title is `README.md` or is not a local name |
| `Prune.Orphans` | main.py:221-223 | the children the prune rule selects, in listing order; never more than the children |
| `Prune.Deletion` | main.py:128-130 | deleting one page: the `Deleting: <title>` line, then `remove_page(id, recursive=False)` |
| `Prune.Deletions` | main.py:224-227 | the deletions of the given children, one after another in order |
| `Prune.PruneSpec` | main.py:221-227 | the prune fails only with the error of a removal the server rejected |
| `Prune.PruneIsPrefix` | main.py:221-227 | what the prune does is always a prefix of deleting every selected child in order, and all of it when it passes |
| `Prune.RejectedRemovalFailsPrune` | main.py:224-227 | a rejected removal is not swallowed: a prune that passed had the removal of every selected child accepted |
| `Prune.PruneStopsAtFailure` | main.py:221-227 | once a removal fails, the remaining children are not looked at |
| `Prune.PruneDeletesExactlyOrphans` | main.py:221-227 | when no removal fails, the prune passes and its trace is exactly the selected children's deletions, in listing order |
| `Prune.DeletionsFrom` | main.py:224-227 | every event of a deletion sequence belongs to the deletion of one of the deleted children |
| `Prune.PruneOnlyRemoves` | main.py:128-130 | the only calls the prune makes are removals, none of them recursive |
| `Prune.KeptChildUntouched` | main.py:221-227 | a child with a local document and another title than `README.md` is never removed (page ids being unique) |
| `Prune.PruneExample` | main.py:221-227 | local `A.md`, `B.md` against remote `A.md`, `B.md`, `C.md`, `README.md`: exactly `C.md` then `README.md` are deleted |
| `Prune.DeleteConfluencePage` | main.py:128-130 | logs `Deleting: <title>` and then issues one non-recursive removal of that id |
| `Remote.Gateway.RemovePage` | main.py:130 | one `remove_page` call, recorded in the trace; it succeeds unless rejected |
| `Prune.PruneOrphans` | main.py:221-227 | the outcome and the trace are those of `PruneSpec` |
| `Engine.PublishPages` | main.py:175-201 | the root document by id, the child jobs and the join, with outcome, state and trace as `PublishSpec` says |
| `Engine.ReconcileRemote` | main.py:207-227 | the dump, the filter and the prune, with outcome and trace as `ListAndPrune` says |
| `Engine.PublishSpec` | main.py:175-201 | the publish phase on values: the root step by id; a failed root step ends it; a pool size below one fails it; otherwise every job, then the first failure among them |
| `Engine.ListAndPrune` | main.py:207-227 | the reading and pruning phases on values: the dump; a failed listing request ends them; otherwise the filter, then the prune, their traces in order |
| `Engine.RunFiles` | main.py:175-227 | a run over a given listing: the publish phase, then, only if it passed, the reading and pruning phases |
| `Engine.RunSpec` | main.py:157-227 | a run over the directory's entries: `RunFiles` over the sorted `.md` names |
| `Engine.Run` | main.py:157-227 | a whole run's outcome, state files and trace are those of `RunSpec` over the directory's entries |
| `Engine.PhasesOrdered` | main.py:175-227 | a trace made of a publish-only part followed by a publish-free part has every publish call before every other call |
| `Engine.PublishPhaseOnlyPublishes` | main.py:175-201 | the publish phase makes only page updates |
| `Engine.LaterPhasesNeverPublish` | main.py:207-227 | after the publish phase the only calls are child listings and removals |
| `Engine.PublishBeforePrune` | main.py:175-227 | every page update comes before every listing or removal call |
| `Engine.RootFailureStopsRun` | main.py:175-185 | a failed root document ends the run with exactly the root step's outcome, state files and trace: no pool, no child job, no listing, no removal, no digest recorded |
| `Engine.BadPoolSizeStopsRun` | main.py:188 | a `confluence_threads` below one makes `Pool` raise after the root document is published: the run ends there, with nothing else done |
| `Engine.FailedJobStopsRun` | main.py:188-201 | a failed job fails the run with the first failure in listing order (`FirstFailure` of the job outcomes), after every job has run; the run's state and trace are those of the root step and the whole batch, so nothing is listed or deleted |
| `Engine.ReadmeNeverUpsertedAsChild` | main.py:175-201 | `README.md` is never published as a child page; after a root step that passed, its pool job, run on whatever the earlier jobs left, is a logged skip that passes and changes nothing |
| `Engine.PassedRunSettles` | main.py:157-227 | after a run that passed, `README.md` and every listed document are synced |
| `Engine.RunIdempotent` | main.py:157-227 | a second run with unchanged documents and template publishes nothing and leaves the state files as the first run left them |
| `Engine.IntegerParentIdPrunesNothing` | main.py:207-227 | with a numeric `parent_page_id` no page is ever removed |
| `Engine.CleanRunDeletesExactlyOrphans` | main.py:207-227 | with a string `parent_page_id`, renderable documents and no failing call, the run passes and ends by deleting exactly the selected children, in listing order |

## Left out

- Argument parsing, exit code 125 and the configuration keys not used by the engine (`confluence_url`,
  `confluence_token`, `markdown_dir`, `state_dir`) are left out; `json.loads` is not modelled. The comment pre-pass
  stops at the text handed to the parser.
- Newline translation is left out. Universal-newline reading (`\r\n` and `\r` line ends) is not modelled: lines end
  at `\n` only.
- jinja2 rendering is an abstract deterministic function of (file name, content, template). A missing template file
  and a template that raises are the same `TemplateError`. The truncated `.confluence` file that a render-time error
  leaves behind is not modelled; on that path the model's state files are unchanged.
- SHA-256 is an abstract function. Only its 64-hex-digit output format is used, by `Sync.FirstSyncPublishes`. The
  4096-byte block loop of `_read_hash` is not modelled.
- The page-list dump file is not modelled: writing it and reading it back with `json` is taken to be the identity.
  Ids and titles are strings, as the wiki returns them.
- The Confluence client is an abstraction: a fixed snapshot of the parent's children and a set of calls that fail. The
  server's own effects are not modelled, nor is the listing changing during or because of a run. So no statement is
  made about what a second run deletes.
- `_exec` is not part of the modelled core (it is never called).
- Section-header prints (`[[ … ]]` and blank lines) are not in the trace. The decision lines `Skipping`, `Updating`
  and `Deleting` are.
- Sync.RunJobs: the pool's worker processes are modelled as running the jobs one after another in listing order, all
  of them. Real concurrency, interleaved console output, and jobs killed when the interpreter exits after a failed
  join are left out.
- Engine.Run: beyond the pool refusing a size below one, `confluence_threads` has no effect in the model, because the jobs
  are sequential.
- Writes to the state directory cannot fail in the model: `Sync.StateArea.WriteRendered` and `Sync.StateArea.WriteHash`
  always succeed, although `open(..., 'w')` at main.py:113 and main.py:104 can raise. The path where a publish
  succeeds and the `.lastSynced` write then fails (page updated, digest not recorded) is therefore not reachable.
