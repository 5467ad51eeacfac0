/**
 * The state of one module registry of lib/modules.php as a value, and what
 * each operation of the Hm_Modules trait does to it.  The imperative class in
 * modules.dfy is proved to change its fields exactly as these functions say;
 * the lemmas below are the properties the registry promises.
 */
module Registration {
  import opened PageLists

  /** One call of add, as the retry queue stores it (its module set already resolved). */
  datatype Request = Request(page: string, name: string, loggedIn: bool, marker: Label, placement: string, source: Label)

  /** One entry of the broadcast queue: an add for every page. */
  datatype Directive = Directive(name: string, loggedIn: bool, marker: Label, placement: string, source: Label)
  {
    function At(page: string): Request {
      Request(page, name, loggedIn, marker, placement, source)
    }
  }

  /** The debug messages add records. */
  datatype Notice = AlreadyRegistered(name: string) | InsertFailed(name: string, page: string)

  /**
   * The module list: an ordered map from page to its ordered entries.  `order`
   * is the order in which the pages were first created, the order in which
   * the PHP code's loops over the map visit them.
   */
  datatype PageTable = PageTable(order: seq<string>, lists: map<string, seq<Entry>>)

  /** Everything one registry holds, with the debug log it writes to. */
  datatype State = State(table: PageTable, source: Label, retry: seq<Request>, broadcast: seq<Directive>, log: seq<Notice>)

  predicate DistinctPages(s: seq<string>) {
    forall i, j :: 0 <= i < j < |s| ==> s[i] != s[j]
  }

  /** What a PHP array of arrays guarantees: each page once, and unique names on every page. */
  ghost predicate WellFormed(t: PageTable) {
    && DistinctPages(t.order)
    && (forall p :: p in t.lists <==> p in t.order)
    && (forall p :: p in t.lists ==> UniqueNames(t.lists[p]))
  }

  /** Pages whose id starts with "ajax_" are left out of broadcasts. */
  predicate IsAjax(page: string) {
    |page| >= 5 && page[..5] == "ajax_"
  }

  /** The entries of a page, the empty list for an unknown page. */
  function ListOf(t: PageTable, page: string): seq<Entry> {
    if page in t.lists then t.lists[page] else []
  }

  /** The table with `page` created empty when it is missing. */
  function WithPage(t: PageTable, page: string): (r: PageTable)
    ensures page in r.lists && r.lists[page] == ListOf(t, page)
  {
    if page in t.lists then t else PageTable(t.order + [page], t.lists[page := []])
  }

  function SetList(t: PageTable, page: string, l: seq<Entry>): PageTable {
    PageTable(t.order, t.lists[page := l])
  }

  /** An explicit source when it is truthy, the active source otherwise. */
  function Resolve(source: Label, active: Label): Label {
    if Truthy(source) then source else active
  }

  // ---------------------------------------------------------------------
  // The operations
  // ---------------------------------------------------------------------

  /** add: insert one module on one page, queue it for a retry, or log why not. */
  function Add(s: State, r: Request, queue: bool): State
  {
    var t := WithPage(s.table, r.page);
    var l := t.lists[r.page];
    if Has(l, r.name) then
      s.(table := t, log := s.log + [AlreadyRegistered(r.name)])
    else
      var e := Entry(r.name, Resolve(r.source, s.source), r.loggedIn);
      if !Truthy(r.marker) then
        s.(table := SetList(t, r.page, l + [e]))
      else
        match InsertAtMarker(l, r.marker.value, e, r.placement)
        case Some(l') => s.(table := SetList(t, r.page, l'))
        case None =>
          if queue then s.(table := t, retry := s.retry + [r.(source := e.source)])
          else s.(table := t, log := s.log + [InsertFailed(r.name, r.page)])
  }

  /** add_to_all_pages over the pages `pages`, in order, skipping ajax pages. */
  function AddToPages(s: State, pages: seq<string>, d: Directive): State
    decreases |pages|
  {
    if pages == [] then s
    else
      var s' := AddToPages(s, pages[..|pages| - 1], d);
      var p := pages[|pages| - 1];
      if IsAjax(p) then s' else Add(s', d.At(p), true)
  }

  /** add_to_all_pages: the pages are those of the table when the call starts. */
  function AddToAllPages(s: State, d: Directive): State {
    AddToPages(s, s.table.order, d)
  }

  /**
   * The requests a broadcast of `d` over `pages` leaves on the retry queue,
   * read off the starting table: one for each visited non-ajax page that
   * holds neither the module nor the (truthy) marker, in page order, with the
   * source resolved against the active source.
   */
  function Deferred(s: State, pages: seq<string>, d: Directive): (rs: seq<Request>)
    ensures |rs| <= |pages|
    ensures !Truthy(d.marker) ==> rs == []
    ensures forall k :: 0 <= k < |rs| ==>
      && rs[k].page in pages && !IsAjax(rs[k].page)
      && rs[k] == d.At(rs[k].page).(source := Resolve(d.source, s.source))
    decreases |pages|
  {
    if pages == [] then []
    else
      var front := pages[..|pages| - 1];
      assert forall q :: q in front ==> q in pages;
      Deferred(s, front, d) + DeferredOn(s, pages[|pages| - 1], d)
  }

  /** The request, if any, a broadcast of `d` leaves on the retry queue for page `p`. */
  function DeferredOn(s: State, p: string, d: Directive): seq<Request> {
    var l := ListOf(s.table, p);
    if !IsAjax(p) && Truthy(d.marker) && !Has(l, d.name) && !Has(l, d.marker.value)
    then [d.At(p).(source := Resolve(d.source, s.source))] else []
  }

  /** The directives `ds`, one after another. */
  function ProcessBroadcasts(s: State, ds: seq<Directive>): State
    decreases |ds|
  {
    if ds == [] then s
    else AddToAllPages(ProcessBroadcasts(s, ds[..|ds| - 1]), ds[|ds| - 1])
  }

  /** process_all_page_queue */
  function ProcessAllPageQueue(s: State): State {
    ProcessBroadcasts(s, s.broadcast)
  }

  /** The requests `rs` added again in order, with queueing switched off. */
  function Replay(s: State, rs: seq<Request>): State
    decreases |rs|
  {
    if rs == [] then s
    else Add(Replay(s, rs[..|rs| - 1]), rs[|rs| - 1], false)
  }

  /** try_queued_modules */
  function TryQueuedModules(s: State): State {
    Replay(s, s.retry)
  }

  /** The key swap of replace on one page that holds the target. */
  function ReplaceOn(s: State, page: string, target: string, replacement: string): State {
    if page in s.table.lists && Has(s.table.lists[page], target) then
      s.(table := SetList(s.table, page, Swapped(s.table.lists[page], target, replacement, s.source)))
    else s
  }

  /** The loop of replace over the pages `pages`. */
  function ReplaceOnPages(s: State, pages: seq<string>, target: string, replacement: string): State
    decreases |pages|
  {
    if pages == [] then s
    else ReplaceOn(ReplaceOnPages(s, pages[..|pages| - 1], target, replacement), pages[|pages| - 1], target, replacement)
  }

  /** replace: on one page when `page` is truthy, on every page otherwise. */
  function Replace(s: State, target: string, replacement: string, page: Label): State {
    if Truthy(page) then ReplaceOn(s, page.value, target, replacement)
    else ReplaceOnPages(s, s.table.order, target, replacement)
  }

  /** del */
  function Del(s: State, page: string, name: string): State {
    if page in s.table.lists && Has(s.table.lists[page], name) then
      s.(table := SetList(s.table, page, Deleted(s.table.lists[page], name)))
    else s
  }

  /** The renaming replace performs keeps a page's names unique. */
  predicate CanRename(l: seq<Entry>, target: string, replacement: string) {
    Has(l, target) ==> replacement == target || !Has(l, replacement)
  }

  /** replace is called on pages where the replacement name is not already taken. */
  predicate Replaceable(t: PageTable, target: string, replacement: string, page: Label) {
    if Truthy(page) then page.value in t.lists ==> CanRename(t.lists[page.value], target, replacement)
    else forall p :: p in t.lists ==> CanRename(t.lists[p], target, replacement)
  }

  // ---------------------------------------------------------------------
  // add
  // ---------------------------------------------------------------------

  /** add touches one page only, creates it when missing, and never changes the active source or the broadcast queue. */
  lemma AddFrame(s: State, r: Request, queue: bool)
    ensures var res := Add(s, r, queue);
      && res.source == s.source && res.broadcast == s.broadcast
      && r.page in res.table.lists
      && res.table.lists.Keys == s.table.lists.Keys + {r.page}
      && (forall p :: p in s.table.lists && p != r.page ==> res.table.lists[p] == s.table.lists[p])
      && res.table.order == (if r.page in s.table.lists then s.table.order else s.table.order + [r.page])
  {
  }

  /** add keeps every page's names unique and the page order consistent with the map. */
  lemma AddPreservesWellFormed(s: State, r: Request, queue: bool)
    requires WellFormed(s.table)
    ensures WellFormed(Add(s, r, queue).table)
  {
    var t := WithPage(s.table, r.page);
    var l := t.lists[r.page];
    assert WellFormed(t);
    if !Has(l, r.name) {
      var e := Entry(r.name, Resolve(r.source, s.source), r.loggedIn);
      if !Truthy(r.marker) {
        AppendKeepsUnique(l, e);
      } else if InsertAtMarker(l, r.marker.value, e, r.placement).Some? {
        InsertAtMarkerKeepsUnique(l, r.marker.value, e, r.placement);
      }
    }
  }

  /**
   * Without a marker, a module new to the page is appended at the end with
   * the explicit source, or the active one when none is given; the earlier
   * entries keep their order and nothing is queued or logged.
   */
  lemma AddAppends(s: State, r: Request, queue: bool)
    requires !Has(ListOf(s.table, r.page), r.name) && !Truthy(r.marker)
    ensures var res := Add(s, r, queue);
      && res.table.lists[r.page] == ListOf(s.table, r.page) + [Entry(r.name, Resolve(r.source, s.source), r.loggedIn)]
      && res.retry == s.retry && res.log == s.log
  {
  }

  /** A module already on the page changes nothing but the debug log. */
  lemma AddDuplicate(s: State, r: Request, queue: bool)
    requires Has(ListOf(s.table, r.page), r.name)
    ensures var res := Add(s, r, queue);
      && res.table == s.table && res.retry == s.retry
      && res.log == s.log + [AlreadyRegistered(r.name)]
  {
  }

  /**
   * With the marker on the page, the new entry lands just after it for
   * "after" and just before it otherwise; the other entries keep their
   * relative order, the page grows by one, nothing is queued or logged.
   */
  lemma AddAtMarker(s: State, r: Request, queue: bool, m: nat)
    requires WellFormed(s.table)
    requires Truthy(r.marker) && !Has(ListOf(s.table, r.page), r.name)
    requires m < |ListOf(s.table, r.page)| && ListOf(s.table, r.page)[m].name == r.marker.value
    ensures var l := ListOf(s.table, r.page);
      var k := if r.placement == "after" then m + 1 else m;
      var res := Add(s, r, queue).table.lists[r.page];
      && |res| == |l| + 1
      && res[k] == Entry(r.name, Resolve(r.source, s.source), r.loggedIn)
      && res[..k] == l[..k] && res[k + 1..] == l[k..]
      && Add(s, r, queue).retry == s.retry && Add(s, r, queue).log == s.log
  {
    var l := ListOf(s.table, r.page);
    var e := Entry(r.name, Resolve(r.source, s.source), r.loggedIn);
    InsertAtMarkerPlaces(l, r.marker.value, e, r.placement, m);
  }

  /**
   * With the marker missing, the page is left as it was (created empty when
   * it did not exist); with `queue` exactly this request, with its resolved
   * source, joins the retry queue; without it nothing is queued and the
   * failure is logged.
   */
  lemma AddMarkerAbsent(s: State, r: Request, queue: bool)
    requires Truthy(r.marker) && !Has(ListOf(s.table, r.page), r.name)
    requires !Has(ListOf(s.table, r.page), r.marker.value)
    ensures var res := Add(s, r, queue);
      && res.table == WithPage(s.table, r.page)
      && (queue ==> res.retry == s.retry + [r.(source := Resolve(r.source, s.source))] && res.log == s.log)
      && (!queue ==> res.retry == s.retry && res.log == s.log + [InsertFailed(r.name, r.page)])
  {
  }

  /**
   * No add is lost without a signal: a module new to the page is inserted,
   * queued for a retry, or reported as a failure in the log, and exactly one
   * of the three happens.
   */
  lemma AddNeverSilent(s: State, r: Request, queue: bool)
    requires !Has(ListOf(s.table, r.page), r.name)
    ensures var res := Add(s, r, queue);
      var inserted := Has(res.table.lists[r.page], r.name);
      var queued := |res.retry| == |s.retry| + 1;
      var failed := |res.log| == |s.log| + 1;
      && (inserted || queued || failed)
      && !(inserted && queued) && !(inserted && failed) && !(queued && failed)
  {
    var l := ListOf(s.table, r.page);
    var e := Entry(r.name, Resolve(r.source, s.source), r.loggedIn);
    var res := Add(s, r, queue);
    if !Truthy(r.marker) {
      assert res.table.lists[r.page][|l|] == e;
    } else {
      match MarkerIndex(l, r.marker.value, r.placement)
      case None =>
      case Some(k) =>
        assert res.table.lists[r.page][k] == e;
    }
  }

  /** add never removes a name from any page. */
  lemma AddKeepsEntries(s: State, r: Request, queue: bool)
    requires WellFormed(s.table)
    ensures forall p, n :: p in s.table.lists && Has(s.table.lists[p], n) ==>
      p in Add(s, r, queue).table.lists && Has(Add(s, r, queue).table.lists[p], n)
  {
    var t := WithPage(s.table, r.page);
    var l := t.lists[r.page];
    if !Has(l, r.name) {
      var e := Entry(r.name, Resolve(r.source, s.source), r.loggedIn);
      if !Truthy(r.marker) {
        AppendKeepsUnique(l, e);
      } else if InsertAtMarker(l, r.marker.value, e, r.placement).Some? {
        InsertAtMarkerKeepsUnique(l, r.marker.value, e, r.placement);
      }
    }
  }

  /** After an add without a marker the module is on the page, whether it was added now or before. */
  lemma AddWithoutMarkerHas(s: State, r: Request, queue: bool)
    requires !Truthy(r.marker)
    ensures Has(Add(s, r, queue).table.lists[r.page], r.name)
  {
    var l := ListOf(s.table, r.page);
    if !Has(l, r.name) {
      assert Add(s, r, queue).table.lists[r.page][|l|].name == r.name;
    }
  }

  // ---------------------------------------------------------------------
  // Broadcasts
  // ---------------------------------------------------------------------

  /**
   * A broadcast over pages already in the table keeps the table well formed
   * and leaves the page order, the page set, the active source and the broadcast
   * queue as they were.
   */
  lemma {:induction false} AddToPagesFacts(s: State, pages: seq<string>, d: Directive)
    requires WellFormed(s.table)
    requires forall p :: p in pages ==> p in s.table.lists
    ensures var res := AddToPages(s, pages, d);
      && WellFormed(res.table)
      && res.table.order == s.table.order && res.table.lists.Keys == s.table.lists.Keys
      && res.source == s.source && res.broadcast == s.broadcast
  {
    if pages != [] {
      var front := pages[..|pages| - 1];
      var p := pages[|pages| - 1];
      assert forall q :: q in front ==> q in pages;
      AddToPagesFacts(s, front, d);
      var s' := AddToPages(s, front, d);
      if !IsAjax(p) {
        AddFrame(s', d.At(p), true);
        AddPreservesWellFormed(s', d.At(p), true);
      }
    }
  }

  /** The loop of add_to_all_pages over one more page is one more add, unless that page is an ajax page. */
  lemma AddToPagesSnoc(s: State, pages: seq<string>, i: nat, d: Directive)
    requires i < |pages|
    ensures AddToPages(s, pages[..i + 1], d)
      == if IsAjax(pages[i]) then AddToPages(s, pages[..i], d) else Add(AddToPages(s, pages[..i], d), d.At(pages[i]), true)
  {
    var next := pages[..i + 1];
    assert next[..|next| - 1] == pages[..i] && next[|next| - 1] == pages[i];
  }

  /** A broadcast never touches an ajax page or a page it does not visit. */
  lemma {:induction false} AddToPagesUntouched(s: State, pages: seq<string>, d: Directive, p: string)
    requires WellFormed(s.table)
    requires forall q :: q in pages ==> q in s.table.lists
    requires p in s.table.lists && (IsAjax(p) || p !in pages)
    ensures p in AddToPages(s, pages, d).table.lists
    ensures AddToPages(s, pages, d).table.lists[p] == s.table.lists[p]
  {
    if pages != [] {
      var front := pages[..|pages| - 1];
      var last := pages[|pages| - 1];
      assert forall q :: q in front ==> q in pages;
      AddToPagesUntouched(s, front, d, p);
      if !IsAjax(last) {
        AddFrame(AddToPages(s, front, d), d.At(last), true);
      }
    }
  }

  /** A broadcast removes no name from any page. */
  lemma {:induction false} AddToPagesKeepsEntries(s: State, pages: seq<string>, d: Directive, p: string, n: string)
    requires WellFormed(s.table)
    requires forall q :: q in pages ==> q in s.table.lists
    requires p in s.table.lists && Has(s.table.lists[p], n)
    ensures p in AddToPages(s, pages, d).table.lists && Has(AddToPages(s, pages, d).table.lists[p], n)
  {
    if pages != [] {
      var front := pages[..|pages| - 1];
      var last := pages[|pages| - 1];
      assert forall q :: q in front ==> q in pages;
      AddToPagesKeepsEntries(s, front, d, p, n);
      AddToPagesFacts(s, front, d);
      if !IsAjax(last) {
        AddKeepsEntries(AddToPages(s, front, d), d.At(last), true);
      }
    }
  }

  /** Add on a page depends only on that page's list and the active source. */
  lemma AddLocal(s1: State, s2: State, r: Request, queue: bool)
    requires r.page in s1.table.lists && r.page in s2.table.lists
    requires s1.table.lists[r.page] == s2.table.lists[r.page] && s1.source == s2.source
    ensures Add(s1, r, queue).table.lists[r.page] == Add(s2, r, queue).table.lists[r.page]
  {
  }

  /**
   * A broadcast is one independent add per visited page: each non-ajax page
   * ends up exactly as one add of the directive, with queueing on, would
   * leave it in the starting state.
   */
  lemma {:induction false} AddToPagesPerPage(s: State, pages: seq<string>, d: Directive, p: string)
    requires WellFormed(s.table) && DistinctPages(pages)
    requires forall q :: q in pages ==> q in s.table.lists
    requires p in pages && !IsAjax(p)
    ensures p in AddToPages(s, pages, d).table.lists
    ensures AddToPages(s, pages, d).table.lists[p] == Add(s, d.At(p), true).table.lists[p]
  {
    var front := pages[..|pages| - 1];
    var last := pages[|pages| - 1];
    assert forall q :: q in front ==> q in pages;
    AddToPagesFacts(s, front, d);
    var s' := AddToPages(s, front, d);
    if p == last {
      assert last !in front;
      AddToPagesUntouched(s, front, d, last);
      AddFrame(s', d.At(last), true);
      AddLocal(s', s, d.At(last), true);
    } else {
      assert DistinctPages(front);
      assert p in front;
      AddToPagesPerPage(s, front, d, p);
      if !IsAjax(last) {
        AddFrame(s', d.At(last), true);
      }
    }
  }

  /**
   * A broadcast without a marker puts the module on every page of the table
   * except the ajax ones, which it leaves untouched.
   */
  lemma BroadcastReachesPages(s: State, d: Directive)
    requires WellFormed(s.table) && !Truthy(d.marker)
    ensures var res := AddToAllPages(s, d);
      && res.table.lists.Keys == s.table.lists.Keys
      && (forall p :: p in s.table.lists && !IsAjax(p) ==> p in res.table.lists && Has(res.table.lists[p], d.name))
      && (forall p :: p in s.table.lists && IsAjax(p) ==> p in res.table.lists && res.table.lists[p] == s.table.lists[p])
  {
    AddToPagesFacts(s, s.table.order, d);
    forall p | p in s.table.lists && !IsAjax(p)
      ensures Has(AddToAllPages(s, d).table.lists[p], d.name)
    {
      AddToPagesPerPage(s, s.table.order, d, p);
      AddWithoutMarkerHas(s, d.At(p), true);
    }
    forall p | p in s.table.lists && IsAjax(p)
      ensures AddToAllPages(s, d).table.lists[p] == s.table.lists[p]
    {
      AddToPagesUntouched(s, s.table.order, d, p);
    }
  }

  /**
   * process_all_page_queue keeps the table well formed, creates no page,
   * never touches an ajax page, and keeps the active source and the broadcast queue.
   */
  lemma {:induction false} ProcessBroadcastsFacts(s: State, ds: seq<Directive>)
    requires WellFormed(s.table)
    ensures var res := ProcessBroadcasts(s, ds);
      && WellFormed(res.table)
      && res.table.order == s.table.order && res.table.lists.Keys == s.table.lists.Keys
      && res.source == s.source && res.broadcast == s.broadcast
      && (forall p :: p in s.table.lists && IsAjax(p) ==> res.table.lists[p] == s.table.lists[p])
  {
    if ds != [] {
      ProcessBroadcastsFacts(s, ds[..|ds| - 1]);
      var s' := ProcessBroadcasts(s, ds[..|ds| - 1]);
      AddToPagesFacts(s', s'.table.order, ds[|ds| - 1]);
      forall p | p in s.table.lists && IsAjax(p)
        ensures ProcessBroadcasts(s, ds).table.lists[p] == s.table.lists[p]
      {
        AddToPagesUntouched(s', s'.table.order, ds[|ds| - 1], p);
      }
    }
  }

  lemma ProcessAllPageQueueFacts(s: State)
    requires WellFormed(s.table)
    ensures var res := ProcessAllPageQueue(s);
      && WellFormed(res.table) && res.table.order == s.table.order
      && res.broadcast == s.broadcast
      && (forall p :: p in s.table.lists && IsAjax(p) ==> res.table.lists[p] == s.table.lists[p])
  {
    ProcessBroadcastsFacts(s, s.broadcast);
  }

  /**
   * What one add does to the retry queue: with queueing on, it appends the
   * request (its source resolved) exactly when the module is new on the page
   * and a truthy marker is missing from it; otherwise the queue is kept.
   */
  lemma AddRetry(s: State, r: Request, queue: bool)
    ensures var l := ListOf(s.table, r.page);
      Add(s, r, queue).retry == s.retry +
        (if queue && Truthy(r.marker) && !Has(l, r.name) && !Has(l, r.marker.value)
         then [r.(source := Resolve(r.source, s.source))] else [])
  {
    assert s.retry + [] == s.retry;
  }

  /**
   * What a broadcast does to the retry queue: it only grows, by exactly the
   * requests of Deferred, in the order of the pages.  A broadcast without a
   * marker leaves it as it was.
   */
  lemma {:induction false} AddToPagesRetry(s: State, pages: seq<string>, d: Directive)
    requires WellFormed(s.table) && DistinctPages(pages)
    requires forall p :: p in pages ==> p in s.table.lists
    ensures AddToPages(s, pages, d).retry == s.retry + Deferred(s, pages, d)
  {
    if pages == [] {
      assert s.retry + [] == s.retry;
    } else {
      var front := pages[..|pages| - 1];
      assert forall q :: q in front ==> q in pages;
      assert DistinctPages(front) && pages[|pages| - 1] !in front;
      AddToPagesRetry(s, front, d);
      AddToPagesRetryStep(s, pages, d);
      ConcatAssoc(s.retry, Deferred(s, front, d), DeferredOn(s, pages[|pages| - 1], d));
    }
  }

  lemma ConcatAssoc<T>(a: seq<T>, b: seq<T>, c: seq<T>)
    ensures (a + b) + c == a + (b + c)
  {
  }

  /** One page of a broadcast adds DeferredOn of the starting table to the retry queue. */
  lemma AddToPagesRetryStep(s: State, pages: seq<string>, d: Directive)
    requires WellFormed(s.table) && pages != []
    requires forall p :: p in pages ==> p in s.table.lists
    requires pages[|pages| - 1] !in pages[..|pages| - 1]
    ensures AddToPages(s, pages, d).retry
      == AddToPages(s, pages[..|pages| - 1], d).retry + DeferredOn(s, pages[|pages| - 1], d)
  {
    var front := pages[..|pages| - 1];
    var last := pages[|pages| - 1];
    assert forall q :: q in front ==> q in pages;
    var s' := AddToPages(s, front, d);
    AddToPagesFacts(s, front, d);
    if IsAjax(last) {
      assert s'.retry + [] == s'.retry;
    } else {
      AddToPagesUntouched(s, front, d, last);
      assert ListOf(s'.table, last) == ListOf(s.table, last);
      AddRetry(s', d.At(last), true);
    }
  }

  /** Broadcasts without a marker, one after another, queue nothing. */
  lemma {:induction false} BroadcastsKeepRetry(s: State, ds: seq<Directive>)
    requires WellFormed(s.table)
    requires forall k :: 0 <= k < |ds| ==> !Truthy(ds[k].marker)
    ensures ProcessBroadcasts(s, ds).retry == s.retry
  {
    if ds != [] {
      var front := ds[..|ds| - 1];
      assert forall k :: 0 <= k < |front| ==> front[k] == ds[k];
      BroadcastsKeepRetry(s, front);
      ProcessBroadcastsFacts(s, front);
      var s' := ProcessBroadcasts(s, front);
      AddToPagesRetry(s', s'.table.order, ds[|ds| - 1]);
    }
  }

  /**
   * Broadcasts without a marker, one after another, leave every directive's
   * module on every non-ajax page.
   */
  lemma {:induction false} BroadcastsReachPages(s: State, ds: seq<Directive>, k: nat, p: string)
    requires WellFormed(s.table)
    requires forall j :: 0 <= j < |ds| ==> !Truthy(ds[j].marker)
    requires k < |ds| && p in s.table.lists && !IsAjax(p)
    ensures p in ProcessBroadcasts(s, ds).table.lists && Has(ProcessBroadcasts(s, ds).table.lists[p], ds[k].name)
  {
    var front := ds[..|ds| - 1];
    var d := ds[|ds| - 1];
    ProcessBroadcastsFacts(s, front);
    var s' := ProcessBroadcasts(s, front);
    assert ProcessBroadcasts(s, ds) == AddToAllPages(s', d);
    if k == |ds| - 1 {
      BroadcastReachesPages(s', d);
    } else {
      assert forall j :: 0 <= j < |front| ==> front[j] == ds[j];
      BroadcastsReachPages(s, front, k, p);
      AddToPagesKeepsEntries(s', s'.table.order, d, p, ds[k].name);
    }
  }

  // ---------------------------------------------------------------------
  // The retry queue
  // ---------------------------------------------------------------------

  /** Replay never re-queues: the retry queue after a replay is the one before it. */
  lemma {:induction false} ReplayNeverRequeues(s: State, rs: seq<Request>)
    ensures Replay(s, rs).retry == s.retry
    ensures Replay(s, rs).source == s.source && Replay(s, rs).broadcast == s.broadcast
  {
    if rs != [] {
      ReplayNeverRequeues(s, rs[..|rs| - 1]);
    }
  }

  lemma {:induction false} ReplayPreservesWellFormed(s: State, rs: seq<Request>)
    requires WellFormed(s.table)
    ensures WellFormed(Replay(s, rs).table)
  {
    if rs != [] {
      ReplayPreservesWellFormed(s, rs[..|rs| - 1]);
      AddPreservesWellFormed(Replay(s, rs[..|rs| - 1]), rs[|rs| - 1], false);
    }
  }

  /** Replay goes in enqueue order: replaying `a + b` is replaying `a`, then `b`. */
  lemma {:induction false} ReplayInOrder(s: State, a: seq<Request>, b: seq<Request>)
    ensures Replay(s, a + b) == Replay(Replay(s, a), b)
  {
    if b == [] {
      assert a + b == a;
    } else {
      assert (a + b)[..|a + b| - 1] == a + b[..|b| - 1];
      ReplayInOrder(s, a, b[..|b| - 1]);
    }
  }

  lemma TryQueuedModulesFacts(s: State)
    requires WellFormed(s.table)
    ensures var res := TryQueuedModules(s);
      && WellFormed(res.table) && res.retry == s.retry
      && res.source == s.source && res.broadcast == s.broadcast
  {
    ReplayNeverRequeues(s, s.retry);
    ReplayPreservesWellFormed(s, s.retry);
  }

  // ---------------------------------------------------------------------
  // replace and del
  // ---------------------------------------------------------------------

  /** On a page of the table, the check of replace is redundant: Swapped leaves a page without the target as it is. */
  lemma ReplaceOnSwaps(s: State, page: string, target: string, replacement: string)
    requires page in s.table.lists
    ensures ReplaceOn(s, page, target, replacement)
      == s.(table := SetList(s.table, page, Swapped(s.table.lists[page], target, replacement, s.source)))
  {
    if !Has(s.table.lists[page], target) {
      assert s.table.lists[page := s.table.lists[page]] == s.table.lists;
    }
  }

  /**
   * The loop of replace swaps the key on every page it visits and on no
   * other; the order, the retry queue, the broadcast queue, the active source and
   * the log are left alone.
   */
  lemma {:induction false} ReplaceOnPagesFacts(s: State, pages: seq<string>, target: string, replacement: string)
    requires WellFormed(s.table) && DistinctPages(pages)
    requires forall p :: p in pages ==> p in s.table.lists
    ensures var res := ReplaceOnPages(s, pages, target, replacement);
      && res == s.(table := res.table)
      && res.table.order == s.table.order && res.table.lists.Keys == s.table.lists.Keys
      && (forall p :: p in s.table.lists ==>
            res.table.lists[p] == (if p in pages then Swapped(s.table.lists[p], target, replacement, s.source) else s.table.lists[p]))
  {
    ReplaceOnPagesFrame(s, pages, target, replacement);
    forall p | p in s.table.lists
      ensures ReplaceOnPages(s, pages, target, replacement).table.lists[p] ==
        (if p in pages then Swapped(s.table.lists[p], target, replacement, s.source) else s.table.lists[p])
    {
      ReplaceOnPagesAt(s, pages, p, target, replacement);
    }
  }

  /** The loop of replace changes nothing outside the page lists and creates no page. */
  lemma {:induction false} ReplaceOnPagesFrame(s: State, pages: seq<string>, target: string, replacement: string)
    ensures var res := ReplaceOnPages(s, pages, target, replacement);
      && res == s.(table := res.table)
      && res.table.order == s.table.order && res.table.lists.Keys == s.table.lists.Keys
  {
    if pages != [] {
      ReplaceOnPagesFrame(s, pages[..|pages| - 1], target, replacement);
    }
  }

  /** After the loop of replace, a page is swapped when the loop visited it and as it was otherwise. */
  lemma {:induction false} ReplaceOnPagesAt(s: State, pages: seq<string>, p: string, target: string, replacement: string)
    requires DistinctPages(pages) && p in s.table.lists
    ensures p in ReplaceOnPages(s, pages, target, replacement).table.lists
    ensures ReplaceOnPages(s, pages, target, replacement).table.lists[p] ==
      (if p in pages then Swapped(s.table.lists[p], target, replacement, s.source) else s.table.lists[p])
  {
    if pages != [] {
      var front := pages[..|pages| - 1];
      var last := pages[|pages| - 1];
      assert DistinctPages(front);
      assert p in pages <==> p in front || p == last;
      ReplaceOnPagesFrame(s, front, target, replacement);
      ReplaceOnPagesAt(s, front, p, target, replacement);
      var s' := ReplaceOnPages(s, front, target, replacement);
      if p == last {
        assert last !in front;
        ReplaceOnSwaps(s', last, target, replacement);
      }
    }
  }

  /** The loop of replace over one more page is one more ReplaceOn. */
  lemma ReplaceOnPagesSnoc(s: State, pages: seq<string>, i: nat, target: string, replacement: string)
    requires i < |pages|
    ensures ReplaceOnPages(s, pages[..i + 1], target, replacement)
      == ReplaceOn(ReplaceOnPages(s, pages[..i], target, replacement), pages[i], target, replacement)
  {
    var next := pages[..i + 1];
    assert next[..|next| - 1] == pages[..i] && next[|next| - 1] == pages[i];
  }

  /**
   * One turn of the loop of replace over the table's pages: the page it is
   * about to visit still holds its starting list, and visiting it is one
   * more ReplaceOn.
   */
  lemma ReplaceLoopStep(start: State, i: nat, target: string, replacement: string)
    requires WellFormed(start.table) && Replaceable(start.table, target, replacement, None)
    requires i < |start.table.order|
    ensures var pages := start.table.order;
      var cur := ReplaceOnPages(start, pages[..i], target, replacement);
      && pages[i] in cur.table.lists && cur.source == start.source
      && cur.table.lists[pages[i]] == start.table.lists[pages[i]]
      && UniqueNames(cur.table.lists[pages[i]])
      && CanRename(cur.table.lists[pages[i]], target, replacement)
      && ReplaceOnPages(start, pages[..i + 1], target, replacement) == ReplaceOn(cur, pages[i], target, replacement)
  {
    var pages := start.table.order;
    var done := pages[..i];
    assert DistinctPages(done) && pages[i] !in done;
    assert forall q :: q in done ==> q in start.table.lists;
    ReplaceOnPagesFacts(start, done, target, replacement);
    ReplaceOnPagesSnoc(start, pages, i, target, replacement);
  }

  /**
   * replace with a page changes that page only; without one it swaps the
   * target on every page.  Pages without the target are unchanged either way
   * (Swapped leaves them as they are), and nothing outside the table changes.
   */
  lemma ReplaceScope(s: State, target: string, replacement: string, page: Label)
    requires WellFormed(s.table)
    ensures var res := Replace(s, target, replacement, page);
      && res == s.(table := res.table)
      && res.table.order == s.table.order && res.table.lists.Keys == s.table.lists.Keys
      && (Truthy(page) ==> forall p :: p in s.table.lists ==>
            res.table.lists[p] == (if p == page.value then Swapped(s.table.lists[p], target, replacement, s.source) else s.table.lists[p]))
      && (!Truthy(page) ==> forall p :: p in s.table.lists ==>
            res.table.lists[p] == Swapped(s.table.lists[p], target, replacement, s.source))
  {
    if !Truthy(page) {
      ReplaceOnPagesFacts(s, s.table.order, target, replacement);
    }
  }

  /**
   * On a page that holds the target, replace renames it at the same index,
   * keeps its login flag and attributes it to the active source, and leaves
   * every other entry alone.
   */
  lemma ReplaceKeepsPosition(s: State, target: string, replacement: string, page: Label, p: string, i: nat)
    requires WellFormed(s.table) && Replaceable(s.table, target, replacement, page)
    requires p in s.table.lists && (Truthy(page) ==> p == page.value)
    requires i < |s.table.lists[p]| && s.table.lists[p][i].name == target
    ensures var l := s.table.lists[p];
      && p in Replace(s, target, replacement, page).table.lists
      && Replace(s, target, replacement, page).table.lists[p] == l[i := Entry(replacement, s.source, l[i].loggedIn)]
  {
    ReplaceScope(s, target, replacement, page);
    SwappedFacts(s.table.lists[p], target, replacement, s.source);
  }

  lemma ReplacePreservesWellFormed(s: State, target: string, replacement: string, page: Label)
    requires WellFormed(s.table) && Replaceable(s.table, target, replacement, page)
    ensures WellFormed(Replace(s, target, replacement, page).table)
  {
    ReplaceScope(s, target, replacement, page);
    var res := Replace(s, target, replacement, page);
    forall p | p in res.table.lists
      ensures UniqueNames(res.table.lists[p])
    {
      if !Truthy(page) || p == page.value {
        SwappedFacts(s.table.lists[p], target, replacement, s.source);
      }
    }
  }

  /**
   * del removes the named entry from the named page and nothing else; an
   * unknown page or module leaves the state as it was, and no page is created.
   */
  lemma DelFacts(s: State, page: string, name: string)
    requires WellFormed(s.table)
    ensures var res := Del(s, page, name);
      && WellFormed(res.table)
      && res == s.(table := res.table)
      && res.table.order == s.table.order && res.table.lists.Keys == s.table.lists.Keys
      && (forall p :: p in s.table.lists && p != page ==> res.table.lists[p] == s.table.lists[p])
      && (page in s.table.lists ==> res.table.lists[page] == Without(s.table.lists[page], name))
      && (page !in s.table.lists || !Has(s.table.lists[page], name) ==> res == s)
  {
    if page in s.table.lists {
      var l := s.table.lists[page];
      DeletedFacts(l, name);
      DeletedIsWithout(l, name);
    }
  }
}
