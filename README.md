# Module registry of the webmail framework, in Dafny

This project models the module registry of `lib/modules.php`. That file is the
Hm_Modules trait, which is shared by Hm_Handler_Modules and Hm_Output_Modules,
plus the module set functions that route to them. Module sets register named
handler and output modules against pages. An add either appends a module or
places it just before or just after a marker module. An add whose marker is
not on the page yet joins a retry queue. A broadcast queue holds modules meant
for every page except the `ajax_` ones. `replace` renames a module in place.
`del` removes one.

The project has five files:

- `page_lists.dfy` (module `PageLists`) covers one page's ordered entries. It has
  the marker search and stable insert of insert_at_marker, the in-place rename
  of swap_key (a method with its `for`/`break` loop, proved against the
  function `Swapped`), and deletion (`Deleted`, proved equal to the filtering
  reference `Without`).
- `registration.dfy` (module `Registration`) states the whole registry as a
  value `State`: the page table, the active source, the retry queue, the
  broadcast queue and the debug log. It defines the effect of each trait
  operation as a function of that value, and proves the registry's properties
  about those functions.
- `modules.dfy` (module `Modules`) has the class `Registry`. It holds the
  trait's four static fields as fields of its own, and one object is created
  per registry. Every method updates the fields step by step as the PHP code
  does, with its loops. The methods for add, add_to_all_pages,
  process_all_page_queue, replace, try_queued_modules and del are proved to
  leave `Snapshot()` equal to the matching `Registration` function of the old
  snapshot. queue_module_for_all_pages, load and set_source are proved to be
  the single field update of the old snapshot they make. insert_at_marker
  changes only the module list, and is stated with `PageLists.InsertAtMarker`
  on the page it edits. `Valid()` (unique names on every page, and each page
  listed once) is required and kept by every method except set_source, which
  keeps it when it held, and load, which establishes it.
- `module_sets.dfy` (module `ModuleSets`) has the class `Registries`. It holds
  the handler registry and the output registry, which share only the debug
  log. Its methods are the routing functions, including the argument
  reordering of `add_handler` and `add_output`. Each proves that a call routed
  to one registry leaves the other unchanged.
- `scenarios.dfy` (module `Scenarios`) holds worked examples, listed below.

The worked examples in `scenarios.dfy` are lemmas about concrete inputs:

- "after" and "before" placement on `[A, B]`;
- an insert that is deferred and later resolved by `try_queued_modules`;
- a broadcast that reaches `mail` but not `ajax_list`;
- an in-place replace;
- the retry queue's sensitivity to order: a chain of deferred inserts in the
  wrong order loses one insert.

Modelling choices:

- PHP's `false` default for a marker, source or page is `None` of `Label`.
- The PHP defaults of add, add_handler and add_output (`$marker=false`,
  `$placement='after'`, `$queue=true`, `$source=false`) are default parameter
  values of `Modules.Registry.Add`, `ModuleSets.Registries.AddHandler` and
  `ModuleSets.Registries.AddOutput`.
- PHP truthiness is `Truthy`: `false`, `""` and `"0"` are false. So a marker
  `"0"` means "no marker", and `replace` with page `"0"` means "all pages".
- The pages of the module list are kept in creation order (`pageOrder`). This
  is because `add_to_all_pages` and `replace` loop over the PHP array in that
  order, and that order fixes the order of the retry queue.
- `Hm_Debug::add` becomes appending a `Notice` value to a log that both
  registries share.

A broadcast's stored source is used only when it is truthy. A falsy one is
resolved against the active source at replay time, because `add` does this for
every call (lib/modules.php:108-110). The queues are never cleared, and nothing
stops a second replay; the code enforces neither.

## Model

| member | source | states |
|---|---|---|
| PageLists.IndexOf | lib/modules.php:140-142 | The marker search finds nothing exactly when no key equals the name; otherwise it returns the first index holding that name. |
| PageLists.MarkerIndex | lib/modules.php:141-145 | The insertion index exists exactly when the marker is on the page, and is at most the page length. |
| PageLists.InsertAt | lib/modules.php:147-149 | The slice-and-merge puts the new entry at index k, keeps the entries before k, moves the rest up by one, and grows the page by one. |
| PageLists.Truthy | lib/modules.php:108-111 | PHP truthiness of a string-or-false argument: false, "" and "0" are false. It has no ensures; it is the test add and replace apply, and AddAppends, AddAtMarker, AddMarkerAbsent and ReplaceScope state its effect. |
| PageLists.Keys | lib/modules.php:185 | array_keys: the i-th name of the page, for every index, and the same length. |
| PageLists.Values | lib/modules.php:186 | array_values: the i-th (source, logged_in) pair of the page, for every index, and the same length. |
| PageLists.Combine | lib/modules.php:195 | array_combine of pairwise distinct keys gives a page with unique names, and splitting it again returns exactly the keys and the values. |
| PageLists.CombineSplit | lib/modules.php:185-195 | Splitting a page with unique names into keys and values and combining them gives the page back. |
| PageLists.InsertAtMarker | lib/modules.php:138-153 | The page after insert_at_marker, or None when the marker is absent. It has no ensures; InsertAtMarkerPlaces, InsertAtMarkerAbsent and InsertAtMarkerKeepsUnique state its properties. |
| PageLists.Deleted | lib/modules.php:216 | The page after unset of one key. It has no ensures; DeletedIsWithout proves it equal to the filter reference Without, and DeletedFacts states its effect. |
| PageLists.Swapped | lib/modules.php:184-196 | The page after swap_key. It has no ensures; SwappedFacts states its properties and SwapKey's loop is proved equal to it. |
| PageLists.SwapKey | lib/modules.php:184-196 | The keys/values loop with its break returns the page with the first target entry renamed in place, attributed to the active source and with the same login flag. The page keeps its length and its unique names. |
| PageLists.SwappedFacts | lib/modules.php:184-196 | The swap keeps the index, the length and the login flag and sets the active source. It changes nothing when the target is absent. Afterwards the page has the replacement and no longer has the target. |
| PageLists.InsertAtMarkerPlaces | lib/modules.php:138-153 | With the marker at index m, insertion succeeds at m+1 for "after" and at m otherwise. Everything before and after keeps its relative order, and the page grows by exactly one. |
| PageLists.InsertAtMarkerAbsent | lib/modules.php:141-152 | With the marker absent, insert_at_marker reports failure. |
| PageLists.InsertAtKeepsUnique | lib/modules.php:147-149 | Inserting a new name keeps names unique, and the page's names become the old ones plus that name. |
| PageLists.AppendKeepsUnique | lib/modules.php:115 | Appending a new name keeps names unique and adds only that name. |
| PageLists.InsertAtMarkerKeepsUnique | lib/modules.php:138-153 | A successful marker insert keeps names unique. |
| PageLists.DeletedIsWithout | lib/modules.php:214-218 | On a page with unique names, unset of one key leaves every entry with another name, in order (the filter reference). |
| PageLists.DeletedFacts | lib/modules.php:214-218 | After del, the name is gone. Every other entry stays. The page shrinks by one if the name was present and is unchanged otherwise. |
| Registration.IsAjax | lib/modules.php:82 | A page id starting with "ajax_". It has no ensures; AddToPagesUntouched, BroadcastReachesPages and Scenarios.BroadcastSkipsAjax state its effect. |
| Registration.Resolve | lib/modules.php:108-110 | An explicit source when truthy, else the active source. It has no ensures; AddAppends, AddAtMarker and AddMarkerAbsent state that the entry or the queued request carries it. |
| Registration.Add | lib/modules.php:99-126 | The state after add. It has no ensures; AddFrame, AddPreservesWellFormed, AddAppends, AddDuplicate, AddAtMarker, AddMarkerAbsent, AddNeverSilent, AddKeepsEntries, AddWithoutMarkerHas and AddLocal state its properties. |
| Registration.AddToPages | lib/modules.php:80-86 | The loop of add_to_all_pages over given pages. It has no ensures; AddToPagesFacts, AddToPagesUntouched, AddToPagesKeepsEntries, AddToPagesPerPage and AddToPagesRetry state its properties. |
| Registration.AddToAllPages | lib/modules.php:80-86 | add_to_all_pages over the pages of the table when the call starts. It has no ensures; BroadcastReachesPages states its effect. |
| Registration.ProcessBroadcasts | lib/modules.php:47-51 | The broadcast directives applied one after another. It has no ensures; ProcessBroadcastsFacts, BroadcastsKeepRetry and BroadcastsReachPages state its properties. |
| Registration.Deferred | lib/modules.php:80-86 | The requests a broadcast leaves on the retry queue, read off the starting table: one per visited non-ajax page holding neither the module nor the truthy marker, in page order. Each is the directive on that page with its source resolved, it names a visited non-ajax page, and there are none without a truthy marker. |
| Registration.ProcessAllPageQueue | lib/modules.php:47-51 | process_all_page_queue. It has no ensures; ProcessAllPageQueueFacts states its properties. |
| Registration.Replay | lib/modules.php:202-206 | The queued requests added again in order with queueing off. It has no ensures; ReplayNeverRequeues, ReplayPreservesWellFormed, ReplayInOrder and Scenarios.ReplayOrderSensitive state its properties. |
| Registration.TryQueuedModules | lib/modules.php:202-206 | try_queued_modules. It has no ensures; TryQueuedModulesFacts and Scenarios.DeferredInsertResolves state its properties. |
| Registration.ReplaceOn | lib/modules.php:164-172 | The swap on one page that holds the target. It has no ensures; ReplaceOnSwaps and ReplaceLoopStep state its properties. |
| Registration.ReplaceOnPages | lib/modules.php:169-174 | The loop of replace over given pages. It has no ensures; ReplaceOnPagesFacts, ReplaceOnPagesFrame and ReplaceOnPagesAt state its properties. |
| Registration.Replace | lib/modules.php:162-175 | replace with or without a page. It has no ensures; ReplaceScope, ReplaceKeepsPosition and ReplacePreservesWellFormed state its properties. |
| Registration.Del | lib/modules.php:214-218 | del. It has no ensures; DelFacts states its properties. |
| Registration.WithPage | lib/modules.php:101-103 | A missing page is created empty, and an existing page keeps its list. |
| Registration.AddFrame | lib/modules.php:99-126 | add changes only its own page, which it creates when missing, appending it to the page order. The source and the broadcast queue are untouched. |
| Registration.AddPreservesWellFormed | lib/modules.php:99-126 | add keeps names unique on every page, and keeps the page order matching the map. |
| Registration.AddAppends | lib/modules.php:108-117 | With no marker and a new name, the entry (explicit source, or the active one) is appended at the end. Earlier entries keep their order, and nothing is queued or logged. |
| Registration.AddDuplicate | lib/modules.php:104-107 | A name already on the page leaves the table and the retry queue as they were, and records only an AlreadyRegistered notice. |
| Registration.AddAtMarker | lib/modules.php:111-113 | With the marker at index m, the new entry lands at m+1 ("after") or m, with the resolved source. Prefix and suffix are preserved, and the page grows by one. |
| Registration.AddMarkerAbsent | lib/modules.php:118-125 | With the marker absent, the page is unchanged (created empty if missing). With the queue flag, exactly this request, with its resolved source, is appended to the retry queue. Without it, nothing is queued and InsertFailed is logged. |
| Registration.AddNeverSilent | lib/modules.php:111-125 | A new module is inserted, or queued, or logged as failed: exactly one of the three. |
| Registration.AddKeepsEntries | lib/modules.php:99-126 | add never removes a name from any page. |
| Registration.AddWithoutMarkerHas | lib/modules.php:104-117 | After an add without a marker, the module is on the page. |
| Registration.AddLocal | lib/modules.php:99-126 | add's effect on its page depends only on that page's list and the active source. |
| Registration.AddToPagesSnoc | lib/modules.php:81-85 | The loop over one more page does one more add with queueing on, or nothing for an ajax page. |
| Registration.AddToPagesFacts | lib/modules.php:80-86 | The loop of add_to_all_pages keeps the table well formed. It keeps the page order, the page set, the active source and the broadcast queue. |
| Registration.AddToPagesUntouched | lib/modules.php:80-86 | An ajax page, or a page the loop does not visit, keeps its list exactly. |
| Registration.AddToPagesKeepsEntries | lib/modules.php:80-86 | A name on a page before the loop is still on it afterwards. |
| Registration.AddToPagesPerPage | lib/modules.php:80-86 | Each non-ajax page ends up as one independent add with queueing on would leave it. |
| Registration.DeferredOn | lib/modules.php:82-83 | The one request, or none, a broadcast leaves on the retry queue for one page. It has no ensures; AddToPagesRetryStep states its effect. |
| Registration.AddRetry | lib/modules.php:111-122 | A single add appends its request, with its source resolved, to the retry queue exactly when queueing is on, a truthy marker is given, the module is new on the page and the marker is missing. Otherwise the queue is kept. |
| Registration.AddToPagesRetryStep | lib/modules.php:81-85 | One more page of a broadcast grows the retry queue by DeferredOn of that page in the starting table. |
| Registration.AddToPagesRetry | lib/modules.php:80-86 | add with the queue flag on makes the retry queue of a broadcast only grow, by exactly Deferred's requests, in page order. |
| Registration.BroadcastsKeepRetry | lib/modules.php:47-51 | Broadcasts without a marker, one after another, leave the retry queue as it was. |
| Registration.BroadcastsReachPages | lib/modules.php:47-51 | After broadcasts without a marker, one after another, every directive's module is on every non-ajax page of the starting table. |
| Registration.BroadcastReachesPages | lib/modules.php:80-86 | A broadcast without a marker puts the module on every non-ajax page, leaves every ajax page unchanged, and creates no page. |
| Registration.ProcessBroadcastsFacts | lib/modules.php:47-51 | Replaying broadcast directives keeps the table well formed, creates no page, keeps the order, source and broadcast queue, and never touches an ajax page. |
| Registration.ProcessAllPageQueueFacts | lib/modules.php:47-51 | process_all_page_queue keeps the table well formed, keeps the page order and the broadcast queue, and leaves ajax pages unchanged. |
| Registration.ReplayNeverRequeues | lib/modules.php:202-206 | Replaying with queueing off leaves the retry queue, the active source and the broadcast queue exactly as they were. |
| Registration.ReplayPreservesWellFormed | lib/modules.php:202-206 | Replay keeps names unique on every page. |
| Registration.ReplayInOrder | lib/modules.php:202-206 | Replaying a + b is replaying a and then b, so replay follows enqueue order. |
| Registration.TryQueuedModulesFacts | lib/modules.php:202-206 | try_queued_modules keeps the table well formed and leaves the retry queue, source and broadcast queue unchanged. |
| Registration.ReplaceOnSwaps | lib/modules.php:164-166 | On an existing page, the target check is equivalent to swapping unconditionally. |
| Registration.ReplaceOnPagesSnoc | lib/modules.php:169-173 | The loop of replace over one more page is one more swap on that page. |
| Registration.ReplaceOnPagesFrame | lib/modules.php:169-173 | The loop of replace changes only page lists: the order, the page set, the queues, the source and the log stay. |
| Registration.ReplaceOnPagesAt | lib/modules.php:169-173 | After the loop, a visited page is swapped and an unvisited page is unchanged. |
| Registration.ReplaceLoopStep | lib/modules.php:168-174 | The page the loop of replace visits next still holds its starting list, which has unique names and room for the rename. Visiting it is one more swap on that page. |
| Registration.ReplaceOnPagesFacts | lib/modules.php:168-174 | The loop over pages swaps the key on exactly the visited pages. It keeps the order, the page set and everything outside the table. |
| Registration.ReplaceScope | lib/modules.php:162-175 | With a page, only that page changes. With none, every page is swapped (pages without the target stay the same). Queues, source and log are untouched. |
| Registration.ReplaceKeepsPosition | lib/modules.php:162-196 | Where the target sits at index i, the page becomes itself with index i renamed, keeping logged_in and taking the active source. |
| Registration.ReplacePreservesWellFormed | lib/modules.php:162-196 | replace keeps names unique when the replacement was not already on an affected page. |
| Registration.DelFacts | lib/modules.php:214-218 | del leaves the page as the filter without the name. Other pages, the order, the page set and everything else stay unchanged. An unknown page or name is a no-op, and no page is created. |
| Modules.Registry.constructor | lib/modules.php:19-28 | A registry starts with an empty module list, no source (false) and empty queues. |
| Modules.Registry.QueueModuleForAllPages | lib/modules.php:39-41 | Only the broadcast queue changes: one directive is appended. |
| Modules.Registry.ProcessAllPageQueue | lib/modules.php:47-51 | The loop leaves the state as Registration.ProcessAllPageQueue says and keeps Valid. |
| Modules.Registry.Load | lib/modules.php:58-60 | The module list becomes the given table, and nothing else changes. |
| Modules.Registry.SetSource | lib/modules.php:67-69 | Only the active source changes. |
| Modules.Registry.AddToAllPages | lib/modules.php:80-86 | The loop over a snapshot of the pages leaves the state as Registration.AddToAllPages says, with the page order unchanged. |
| Modules.Registry.Add | lib/modules.php:99-126 | The state becomes Registration.Add of the old one, and Valid is kept. |
| Modules.Registry.InsertAtMarker | lib/modules.php:138-153 | Returns true exactly when the marker is on the page. It then splices the entry in at the marker index, or one past it for "after", and otherwise changes nothing. For a name not yet on the page, Valid is kept. |
| Modules.Registry.Replace | lib/modules.php:162-175 | The state becomes Registration.Replace of the old one, and Valid is kept. |
| Modules.Registry.TryQueuedModules | lib/modules.php:202-206 | The loop over the queue snapshot leaves the state as Registration.TryQueuedModules says. |
| Modules.Registry.Del | lib/modules.php:214-218 | The state becomes Registration.Del of the old one, and Valid is kept. |
| Modules.Registry.GetForPage | lib/modules.php:225-231 | Returns the page's ordered list, or empty for an unknown page, never with a repeated name. It reads state and changes none. |
| Modules.Registry.Dump | lib/modules.php:237-239 | Returns the whole, well-formed module list. |
| ModuleSets.Registries.constructor | lib/modules.php:245-250 | Two distinct, empty registries that share one debug log. |
| ModuleSets.Registries.HandlerSource | lib/modules.php:265-267 | Sets the handler registry's source; the output registry is unchanged. |
| ModuleSets.Registries.OutputSource | lib/modules.php:274-276 | Sets the output registry's source; the handler registry is unchanged. |
| ModuleSets.Registries.ReplaceModule | lib/modules.php:286-293 | "handler" and "output" replace on that registry only, and any other kind changes nothing. |
| ModuleSets.Registries.AddHandler | lib/modules.php:305-307 | The handler registry's add with the arguments reordered; the output registry is unchanged. |
| ModuleSets.Registries.AddOutput | lib/modules.php:319-321 | The output registry's add with the arguments reordered; the handler registry is unchanged. |
| ModuleSets.Registries.AddModuleToAllPages | lib/modules.php:333-340 | Queues one broadcast directive on the registry the kind names, and nothing for any other kind. |
| Scenarios.MarkerPlacements | lib/modules.php:143-149 | On [A, B], C after A gives [A, C, B], and C before A gives [C, A, B]. |
| Scenarios.DeferredInsertQueues | lib/modules.php:99-126 | "folders" before a not-yet-registered "search" leaves the page as [list] and is queued with source "imap". Registering "search" afterwards appends it. |
| Scenarios.DeferredInsertRetried | lib/modules.php:202-206 | Replaying the queued "folders" request on [list, search] inserts it before "search", with source "imap". |
| Scenarios.DeferredInsertResolves | lib/modules.php:99-206 | After "search" arrives, try_queued_modules puts the queued "folders" before it: the page becomes [list, folders, search], with "folders" keeping source "imap". |
| Scenarios.BroadcastSkipsAjax | lib/modules.php:80-86 | A broadcast lands on "mail" and not on "ajax_list". |
| Scenarios.ReplaceInPlace | lib/modules.php:162-196 | [A, old, B] becomes [A, new, B], with the same login flag and the replacer's source. |
| Scenarios.ReplayOrderSensitive | lib/modules.php:202-206 | A chain of deferred inserts queued in the wrong order drops the first one (logged) and inserts the second. |

## Left out

- Modules.Registry.Replace: requires that the replacement name is not already on a page where the target is swapped (or equals the target). With such a collision, PHP's array_combine in swap_key merges the two keys and drops one entry; that behaviour is not modelled.
- PageLists.SwapKey: has the same requirement, because array_combine is modelled only for distinct keys (`Combine`).
- ModuleSets.Registries.ReplaceModule: inherits the same requirement for the registry it routes to.
- PageLists.Swapped, Registration.ReplaceOn and Registration.Replace: have no such requirement, but on a page where the replacement name is already taken they return two entries with that name, where PHP's array_combine keeps one. Their lemmas (SwappedFacts, ReplaceKeepsPosition, ReplacePreservesWellFormed) assume the name is free, and that is the only case the model's properties describe.
- Modules.Registry.Load: requires a well-formed table (each page once, unique names per page). A PHP array of arrays has this by construction; a list of another shape is not modelled.
- PHP comparison and key quirks are not modelled: loose `==` in swap_key, loose array_search, `array_merge` renumbering numeric-string keys in insert_at_marker and get_for_page, and integer-like page or module names becoming integer keys. Names are plain strings compared exactly.
- The text of the debug messages (`sprintf` into Hm_Debug) is reduced to the two `Notice` values.
- The process-wide static state becomes two Registry objects. Nothing models PHP class loading or the `use` of a trait.
- The queues are never cleared and replay happens when the caller decides, as in the PHP code. Running each replay exactly once is up to the caller.
- Dispatching the modules of a page, and skipping login-only modules for anonymous requests, happen outside lib/modules.php and are not part of this model.
- modules/imap_folders/modules.php is not part of this model: its handlers do IMAP and Sieve I/O, session and configuration access, and HTML output.
- lib/framework.php is not part of this model: it holds only file inclusion and thin wrappers over PHP built-ins.
