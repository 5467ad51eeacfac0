/**
 * The Hm_Modules trait of lib/modules.php as one class.  lib/modules.php keeps
 * the registry in static fields and uses the trait twice (Hm_Handler_Modules
 * and Hm_Output_Modules); here each of the two is an instance of Registry with
 * fields of its own.  The debug log (Hm_Debug) is one object both instances
 * write to.  Every method updates the fields step by step as the PHP code
 * does, with its loops.  Add, AddToAllPages, ProcessAllPageQueue, Replace,
 * TryQueuedModules and Del are proved to leave Snapshot() as the matching
 * function of Registration describes; QueueModuleForAllPages, Load and
 * SetSource as the single field update they make; InsertAtMarker as
 * PageLists.InsertAtMarker on the page it edits.  GetForPage and Dump are
 * functions that read the fields.
 */
module Modules {
  import opened PageLists
  import opened Registration

  /** The debug message list of Hm_Debug, shared by the registries. */
  class DebugLog {
    var messages: seq<Notice>

    constructor ()
      ensures messages == []
    {
      messages := [];
    }
  }

  class Registry {
    /** $module_list: page to its ordered entries, with the order the pages were created in */
    var moduleList: map<string, seq<Entry>>
    var pageOrder: seq<string>
    /** $source: the module set now registering (None for the initial `false`) */
    var source: Label
    /** $module_queue: the retry queue */
    var moduleQueue: seq<Request>
    /** $all_page_queue: the broadcast queue */
    var allPageQueue: seq<Directive>
    const debug: DebugLog

    ghost predicate Valid()
      reads this
    {
      WellFormed(PageTable(pageOrder, moduleList))
    }

    /** The whole state of this registry as a value. */
    function Snapshot(): State
      reads this, debug
    {
      State(PageTable(pageOrder, moduleList), source, moduleQueue, allPageQueue, debug.messages)
    }

    constructor (debug: DebugLog)
      ensures Valid() && this.debug == debug
      ensures moduleList == map[] && pageOrder == [] && source == None
      ensures moduleQueue == [] && allPageQueue == []
    {
      moduleList := map[];
      pageOrder := [];
      source := None;
      moduleQueue := [];
      allPageQueue := [];
      this.debug := debug;
    }

    /** queue_module_for_all_pages: only the broadcast queue changes. */
    method QueueModuleForAllPages(name: string, loggedIn: bool, marker: Label, placement: string, source: Label)
      requires Valid()
      modifies this
      ensures Valid()
      ensures Snapshot() == old(Snapshot()).(broadcast := old(allPageQueue) + [Directive(name, loggedIn, marker, placement, source)])
    {
      allPageQueue := allPageQueue + [Directive(name, loggedIn, marker, placement, source)];
    }

    /** process_all_page_queue: add_to_all_pages for each queued directive, in queue order. */
    method ProcessAllPageQueue()
      requires Valid()
      modifies this, debug
      ensures Valid()
      ensures Snapshot() == Registration.ProcessAllPageQueue(old(Snapshot()))
    {
      var directives := allPageQueue;
      for i := 0 to |directives|
        invariant Valid()
        invariant Snapshot() == ProcessBroadcasts(old(Snapshot()), directives[..i])
      {
        var d := directives[i];
        AddToAllPages(d.name, d.loggedIn, d.marker, d.placement, d.source);
        assert directives[..i + 1][..i] == directives[..i];
      }
      assert directives[..|directives|] == directives;
    }

    /** load: the whole module list is replaced by `modList`. */
    method Load(modList: PageTable)
      requires WellFormed(modList)
      modifies this
      ensures Valid()
      ensures Snapshot() == old(Snapshot()).(table := modList)
    {
      moduleList := modList.lists;
      pageOrder := modList.order;
    }

    /** set_source */
    method SetSource(source: Label)
      modifies this
      ensures Snapshot() == old(Snapshot()).(source := source)
      ensures old(Valid()) ==> Valid()
    {
      this.source := source;
    }

    /** add_to_all_pages: one add with queueing on for each non-ajax page of the table as it is now. */
    method AddToAllPages(name: string, loggedIn: bool, marker: Label, placement: string, source: Label)
      requires Valid()
      modifies this, debug
      ensures Valid()
      ensures Snapshot() == Registration.AddToAllPages(old(Snapshot()), Directive(name, loggedIn, marker, placement, source))
    {
      ghost var d := Directive(name, loggedIn, marker, placement, source);
      var pages := pageOrder;
      for i := 0 to |pages|
        invariant Valid() && pageOrder == pages
        invariant Snapshot() == AddToPages(old(Snapshot()), pages[..i], d)
      {
        var page := pages[i];
        AddToPagesSnoc(old(Snapshot()), pages, i, d);
        if !IsAjax(page) {
          ghost var before := Snapshot();
          Add(page, name, loggedIn, marker, placement, true, source);
          AddFrame(before, d.At(page), true);
        }
      }
      assert pages[..|pages|] == pages;
    }

    /**
     * add: create the page when it is missing; refuse a module already on it;
     * resolve the source; append, or insert at the marker; on a failed
     * insert, queue the request or log the failure.
     */
    method Add(page: string, name: string, loggedIn: bool, marker: Label := None, placement: string := "after",
               queue: bool := true, source: Label := None)
      requires Valid()
      modifies this, debug
      ensures Valid()
      ensures Snapshot() == Registration.Add(old(Snapshot()), Request(page, name, loggedIn, marker, placement, source), queue)
    {
      AddPreservesWellFormed(Snapshot(), Request(page, name, loggedIn, marker, placement, source), queue);
      var inserted := false;
      if page !in moduleList {
        moduleList := moduleList[page := []];
        pageOrder := pageOrder + [page];
      }
      if Has(moduleList[page], name) {
        debug.messages := debug.messages + [AlreadyRegistered(name)];
        return;
      }
      var src := source;
      if !Truthy(src) {
        src := this.source;
      }
      if Truthy(marker) {
        inserted := InsertAtMarker(marker.value, page, name, loggedIn, placement, src);
      } else {
        moduleList := moduleList[page := moduleList[page] + [Entry(name, src, loggedIn)]];
        inserted := true;
      }
      if !inserted {
        if queue {
          moduleQueue := moduleQueue + [Request(page, name, loggedIn, marker, placement, src)];
        } else {
          debug.messages := debug.messages + [InsertFailed(name, page)];
        }
      }
    }

    /**
     * insert_at_marker: find the marker on the page and splice the new entry
     * in at its index, or one past it for "after"; report whether it did.
     */
    method InsertAtMarker(marker: string, page: string, name: string, loggedIn: bool, placement: string, source: Label)
      returns (inserted: bool)
      requires Valid() && page in moduleList && !Has(moduleList[page], name)
      modifies this`moduleList
      ensures Valid()
      ensures inserted == Has(old(moduleList[page]), marker)
      ensures inserted ==> moduleList == old(moduleList)[page :=
        PageLists.InsertAtMarker(old(moduleList[page]), marker, Entry(name, source, loggedIn), placement).value]
      ensures !inserted ==> moduleList == old(moduleList)
    {
      inserted := false;
      var index := IndexOf(moduleList[page], marker);
      if index.Some? {
        var k := index.value;
        if placement == "after" {
          k := k + 1;
        }
        var list := moduleList[page];
        moduleList := moduleList[page := list[..k] + [Entry(name, source, loggedIn)] + list[k..]];
        inserted := true;
        InsertAtMarkerKeepsUnique(list, marker, Entry(name, source, loggedIn), placement);
      }
    }

    /**
     * replace: swap the key on the given page when it holds the target, or,
     * with no page, on every page that holds it.
     */
    method Replace(target: string, replacement: string, page: Label)
      requires Valid() && Replaceable(PageTable(pageOrder, moduleList), target, replacement, page)
      modifies this
      ensures Valid()
      ensures Snapshot() == Registration.Replace(old(Snapshot()), target, replacement, page)
    {
      ReplacePreservesWellFormed(Snapshot(), target, replacement, page);
      if Truthy(page) {
        var p := page.value;
        if p in moduleList && Has(moduleList[p], target) {
          var swapped := SwapKey(target, replacement, moduleList[p], source);
          moduleList := moduleList[p := swapped];
        }
      } else {
        var pages := pageOrder;
        ghost var start := Snapshot();
        for i := 0 to |pages|
          invariant Snapshot() == ReplaceOnPages(start, pages[..i], target, replacement)
        {
          var p := pages[i];
          ReplaceLoopStep(start, i, target, replacement);
          ghost var before := Snapshot();
          if Has(moduleList[p], target) {
            var swapped := SwapKey(target, replacement, moduleList[p], source);
            moduleList := moduleList[p := swapped];
          }
          assert Snapshot() == ReplaceOn(before, p, target, replacement);
        }
        assert pages[..|pages|] == pages;
      }
    }

    /** try_queued_modules: every queued request added again, in order, with queueing off. */
    method TryQueuedModules()
      requires Valid()
      modifies this, debug
      ensures Valid()
      ensures Snapshot() == Registration.TryQueuedModules(old(Snapshot()))
    {
      var requests := moduleQueue;
      for i := 0 to |requests|
        invariant Valid()
        invariant Snapshot() == Replay(old(Snapshot()), requests[..i])
      {
        var r := requests[i];
        Add(r.page, r.name, r.loggedIn, r.marker, r.placement, false, r.source);
        assert requests[..i + 1][..i] == requests[..i];
      }
      assert requests[..|requests|] == requests;
    }

    /** del */
    method Del(page: string, name: string)
      requires Valid()
      modifies this
      ensures Valid()
      ensures Snapshot() == Registration.Del(old(Snapshot()), page, name)
    {
      DelFacts(Snapshot(), page, name);
      if page in moduleList && Has(moduleList[page], name) {
        moduleList := moduleList[page := Deleted(moduleList[page], name)];
      }
    }

    /** get_for_page: the page's entries in order, none for an unknown page. */
    function GetForPage(page: string): (r: seq<Entry>)
      reads this
      requires Valid()
      ensures UniqueNames(r)
      ensures page in moduleList ==> r == moduleList[page]
      ensures page !in moduleList ==> r == []
    {
      if page in moduleList then moduleList[page] else []
    }

    /** dump: the whole module list. */
    function Dump(): (t: PageTable)
      reads this
      requires Valid()
      ensures WellFormed(t)
      ensures t.lists == moduleList && t.order == pageOrder
    {
      PageTable(pageOrder, moduleList)
    }
  }
}
