/**
 * Worked examples of the registry on concrete pages: the marker placements,
 * a deferred insert that the retry pass resolves, a broadcast that skips an
 * ajax page, an in-place replace, and the order sensitivity of the retry
 * queue.  Each is proved about the functions of Registration, which the
 * Registry class is proved to follow.
 */
module Scenarios {
  import opened PageLists
  import opened Registration

  /** A registry with one page "mail" holding `l`, and `active` as the active source. */
  function MailPage(l: seq<Entry>, active: Label): State {
    State(PageTable(["mail"], map["mail" := l]), active, [], [], [])
  }

  /** On [A, B], inserting C after A gives [A, C, B]; before A gives [C, A, B]. */
  lemma MarkerPlacements()
    ensures var a := Entry("A", Some("core"), false);
      var b := Entry("B", Some("core"), false);
      var c := Entry("C", Some("core"), true);
      && InsertAtMarker([a, b], "A", c, "after") == Some([a, c, b])
      && InsertAtMarker([a, b], "A", c, "before") == Some([c, a, b])
  {
    var a := Entry("A", Some("core"), false);
    var b := Entry("B", Some("core"), false);
    var c := Entry("C", Some("core"), true);
    assert IndexOf([a, b], "A") == Some(0);
    assert [a, b][..1] + [c] + [a, b][1..] == [a, c, b];
    assert [a, b][..0] + [c] + [a, b][0..] == [c, a, b];
  }

  /**
   * The first three registrations of the deferred-insert example: "core"
   * registers "list" on "mail"; "imap" asks for "folders" before "search",
   * which is not there yet, so the request is queued with "imap" resolved as
   * its source; "core" then registers "search" at the end of the page.
   */
  lemma DeferredInsertQueues()
    ensures var s0 := State(PageTable([], map[]), Some("core"), [], [], []);
      var s1 := Add(s0, Request("mail", "list", false, None, "after", None), true);
      var s2 := Add(s1.(source := Some("imap")), Request("mail", "folders", false, Some("search"), "before", None), true);
      var s3 := Add(s2.(source := Some("core")), Request("mail", "search", false, None, "after", None), true);
      && s2.table.lists == map["mail" := [Entry("list", Some("core"), false)]]
      && s2.retry == [Request("mail", "folders", false, Some("search"), "before", Some("imap"))]
      && s3 == State(PageTable(["mail"], map["mail" := [Entry("list", Some("core"), false), Entry("search", Some("core"), false)]]),
                     Some("core"), s2.retry, [], [])
  {
    var s0 := State(PageTable([], map[]), Some("core"), [], [], []);
    var list := Entry("list", Some("core"), false);
    var search := Entry("search", Some("core"), false);
    var t1 := PageTable(["mail"], map["mail" := [list]]);
    assert WithPage(s0.table, "mail") == PageTable(["mail"], map["mail" := []]);
    assert !Has([], "list") && !Truthy(None) && [] + [list] == [list];
    var s1 := Add(s0, Request("mail", "list", false, None, "after", None), true);
    assert s1 == State(t1, Some("core"), [], [], []);
    var folders := Request("mail", "folders", false, Some("search"), "before", None);
    assert !Has([list], "search") && !Has([list], "folders");
    var s2 := Add(s1.(source := Some("imap")), folders, true);
    assert s2 == State(t1, Some("imap"), [folders.(source := Some("imap"))], [], []);
    assert [list] + [search] == [list, search];
    assert Add(s2.(source := Some("core")), Request("mail", "search", false, None, "after", None), true)
        == s2.(source := Some("core"), table := PageTable(["mail"], map["mail" := [list, search]]));
  }

  /**
   * "core" registers "list" on "mail"; "imap" asks for "folders" before
   * "search", which is not there yet, so the request is queued; "core" then
   * registers "search"; the retry pass puts "folders" in its place.
   */
  lemma DeferredInsertResolves()
    ensures var s0 := State(PageTable([], map[]), Some("core"), [], [], []);
      var s1 := Add(s0, Request("mail", "list", false, None, "after", None), true);
      var s2 := Add(s1.(source := Some("imap")), Request("mail", "folders", false, Some("search"), "before", None), true);
      var s3 := Add(s2.(source := Some("core")), Request("mail", "search", false, None, "after", None), true);
      TryQueuedModules(s3).table.lists ==
        map["mail" := [Entry("list", Some("core"), false), Entry("folders", Some("imap"), false), Entry("search", Some("core"), false)]]
  {
    DeferredInsertQueues();
    DeferredInsertRetried();
  }

  /** The retry pass on the state the first three registrations leave. */
  lemma DeferredInsertRetried()
    ensures var list := Entry("list", Some("core"), false);
      var search := Entry("search", Some("core"), false);
      var folders := Request("mail", "folders", false, Some("search"), "before", Some("imap"));
      var s3 := State(PageTable(["mail"], map["mail" := [list, search]]), Some("core"), [folders], [], []);
      TryQueuedModules(s3).table.lists == map["mail" := [list, Entry("folders", Some("imap"), false), search]]
  {
    var list := Entry("list", Some("core"), false);
    var search := Entry("search", Some("core"), false);
    var folders := Request("mail", "folders", false, Some("search"), "before", Some("imap"));
    var s3 := State(PageTable(["mail"], map["mail" := [list, search]]), Some("core"), [folders], [], []);
    assert [folders][..0] == [];
    assert Replay(s3, [folders]) == Add(s3, folders, false);
    assert !Has([list, search], "folders");
    assert IndexOf([list, search], "search") == Some(1);
    assert [list, search][..1] + [Entry("folders", Some("imap"), false)] + [list, search][1..]
        == [list, Entry("folders", Some("imap"), false), search];
  }

  /** A broadcast without a marker reaches "mail" but not "ajax_list". */
  lemma BroadcastSkipsAjax()
    ensures var s := State(PageTable(["mail", "ajax_list"], map["mail" := [], "ajax_list" := []]), Some("core"), [], [], []);
      var res := AddToAllPages(s, Directive("X", true, None, "after", Some("nav")));
      && res.table.lists["mail"] == [Entry("X", Some("nav"), true)]
      && "ajax_list" in res.table.lists && res.table.lists["ajax_list"] == []
  {
    var s := State(PageTable(["mail", "ajax_list"], map["mail" := [], "ajax_list" := []]), Some("core"), [], [], []);
    var d := Directive("X", true, None, "after", Some("nav"));
    assert IsAjax("ajax_list") && !IsAjax("mail");
    assert ["mail", "ajax_list"][..1] == ["mail"];
    assert ["mail"][..0] == [];
    assert !Has([], "X");
  }

  /** replace on [A, old, B] gives [A, new, B]: same index, same login flag, the replacer's source. */
  lemma ReplaceInPlace()
    ensures var a := Entry("A", Some("core"), false);
      var b := Entry("B", Some("core"), false);
      var s := MailPage([a, Entry("old", Some("core"), true), b], Some("imap"));
      Replace(s, "old", "new", Some("mail")).table.lists["mail"] == [a, Entry("new", Some("imap"), true), b]
  {
    var a := Entry("A", Some("core"), false);
    var b := Entry("B", Some("core"), false);
    var l := [a, Entry("old", Some("core"), true), b];
    assert l[1].name == "old";
    assert IndexOf(l, "old") == Some(1);
  }

  /**
   * The retry queue is replayed in enqueue order with no second chance: with
   * "X" queued after "Y" and "Y" queued after "A" on a page [A], the replay
   * reaches "X" before "Y" exists, so "X" is dropped and logged while "Y" is
   * inserted.
   */
  lemma ReplayOrderSensitive()
    ensures var a := Entry("A", Some("core"), false);
      var x := Request("mail", "X", false, Some("Y"), "after", Some("m"));
      var y := Request("mail", "Y", false, Some("A"), "after", Some("m"));
      var res := Replay(MailPage([a], Some("core")), [x, y]);
      && res.table.lists["mail"] == [a, Entry("Y", Some("m"), false)]
      && res.log == [InsertFailed("X", "mail")]
  {
    var a := Entry("A", Some("core"), false);
    var x := Request("mail", "X", false, Some("Y"), "after", Some("m"));
    var y := Request("mail", "Y", false, Some("A"), "after", Some("m"));
    var s := MailPage([a], Some("core"));
    assert [x, y][..1] == [x];
    assert [x][..0] == [];
    assert !Has([a], "X") && !Has([a], "Y");
    var s1 := Add(s, x, false);
    assert Replay(s, [x]) == s1;
    assert s1.table.lists["mail"] == [a] && s1.log == [InsertFailed("X", "mail")];
    assert IndexOf([a], "A") == Some(0);
    assert [a][..1] + [Entry("Y", Some("m"), false)] + [a][1..] == [a, Entry("Y", Some("m"), false)];
  }
}
