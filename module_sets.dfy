/**
 * The module set functions of lib/modules.php: the interface module sets call
 * from their setup code.  Each routes to the handler registry or the output
 * registry; the two are separate Registry objects that share only the debug
 * log, so a call routed to one leaves every field of the other as it was.
 */
module ModuleSets {
  import opened PageLists
  import opened Registration
  import opened Modules

  class Registries {
    /** Hm_Handler_Modules */
    const handlers: Registry
    /** Hm_Output_Modules */
    const outputs: Registry
    const debug: DebugLog

    ghost predicate Valid()
      reads this, handlers, outputs
    {
      && handlers != outputs
      && handlers.debug == debug && outputs.debug == debug
      && handlers.Valid() && outputs.Valid()
    }

    constructor ()
      ensures Valid() && fresh(handlers) && fresh(outputs) && fresh(debug)
      ensures handlers.Snapshot() == State(PageTable([], map[]), None, [], [], [])
      ensures outputs.Snapshot() == State(PageTable([], map[]), None, [], [], [])
    {
      var log := new DebugLog();
      debug := log;
      handlers := new Registry(log);
      outputs := new Registry(log);
    }

    /** handler_source */
    method HandlerSource(source: Label)
      requires Valid()
      modifies handlers
      ensures Valid()
      ensures handlers.Snapshot() == old(handlers.Snapshot()).(source := source)
      ensures unchanged(outputs)
    {
      handlers.SetSource(source);
    }

    /** output_source */
    method OutputSource(source: Label)
      requires Valid()
      modifies outputs
      ensures Valid()
      ensures outputs.Snapshot() == old(outputs.Snapshot()).(source := source)
      ensures unchanged(handlers)
    {
      outputs.SetSource(source);
    }

    /** replace_module: "handler" and "output" pick a registry; any other kind does nothing. */
    method ReplaceModule(kind: string, target: string, replacement: string, page: Label)
      requires Valid()
      requires kind == "handler" ==> Replaceable(handlers.Dump(), target, replacement, page)
      requires kind == "output" ==> Replaceable(outputs.Dump(), target, replacement, page)
      modifies handlers, outputs
      ensures Valid()
      ensures kind == "handler" ==>
        handlers.Snapshot() == Registration.Replace(old(handlers.Snapshot()), target, replacement, page) && unchanged(outputs)
      ensures kind == "output" ==>
        outputs.Snapshot() == Registration.Replace(old(outputs.Snapshot()), target, replacement, page) && unchanged(handlers)
      ensures kind != "handler" && kind != "output" ==> unchanged(handlers) && unchanged(outputs)
    {
      if kind == "handler" {
        handlers.Replace(target, replacement, page);
      } else if kind == "output" {
        outputs.Replace(target, replacement, page);
      }
    }

    /** add_handler: the same add with the source moved ahead of the marker in the argument list. */
    method AddHandler(page: string, name: string, loggedIn: bool, source: Label := None, marker: Label := None,
                      placement: string := "after", queue: bool := true)
      requires Valid()
      modifies handlers, debug
      ensures Valid()
      ensures handlers.Snapshot() ==
        Registration.Add(old(handlers.Snapshot()), Request(page, name, loggedIn, marker, placement, source), queue)
      ensures unchanged(outputs)
    {
      handlers.Add(page, name, loggedIn, marker, placement, queue, source);
    }

    /** add_output */
    method AddOutput(page: string, name: string, loggedIn: bool, source: Label := None, marker: Label := None,
                     placement: string := "after", queue: bool := true)
      requires Valid()
      modifies outputs, debug
      ensures Valid()
      ensures outputs.Snapshot() ==
        Registration.Add(old(outputs.Snapshot()), Request(page, name, loggedIn, marker, placement, source), queue)
      ensures unchanged(handlers)
    {
      outputs.Add(page, name, loggedIn, marker, placement, queue, source);
    }

    /** add_module_to_all_pages: queue a broadcast on the registry `kind` names. */
    method AddModuleToAllPages(kind: string, name: string, loggedIn: bool, source: Label, marker: Label, placement: string)
      requires Valid()
      modifies handlers, outputs
      ensures Valid()
      ensures kind == "output" ==>
        outputs.Snapshot() == old(outputs.Snapshot()).(broadcast := old(outputs.allPageQueue) + [Directive(name, loggedIn, marker, placement, source)])
        && unchanged(handlers)
      ensures kind == "handler" ==>
        handlers.Snapshot() == old(handlers.Snapshot()).(broadcast := old(handlers.allPageQueue) + [Directive(name, loggedIn, marker, placement, source)])
        && unchanged(outputs)
      ensures kind != "handler" && kind != "output" ==> unchanged(handlers) && unchanged(outputs)
    {
      if kind == "output" {
        outputs.QueueModuleForAllPages(name, loggedIn, marker, placement, source);
      } else if kind == "handler" {
        handlers.QueueModuleForAllPages(name, loggedIn, marker, placement, source);
      }
    }
  }
}
