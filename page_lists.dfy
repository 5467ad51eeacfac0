/**
 * The ordered module list of one page: a sequence of entries whose names are
 * the keys of the PHP code's ordered map from module name to (source, logged_in).
 * The functions here are the list-level pieces of the registry in
 * lib/modules.php: the marker search and stable insert of insert_at_marker,
 * the key swap of swap_key and the unset of del.
 */
module PageLists {

  datatype Option<+T> = None | Some(value: T)

  /**
   * A string argument that the PHP code may leave at its default `false`;
   * None stands for `false`.
   */
  type Label = Option<string>

  /** PHP truthiness of a string-or-false value: false, "" and "0" are false. */
  predicate Truthy(x: Label) {
    x.Some? && x.value != "" && x.value != "0"
  }

  /** One module assignment: its name, the module set it came from, and whether it needs a login. */
  datatype Entry = Entry(name: string, source: Label, loggedIn: bool)

  /** The value half of an entry, the PHP code's `array($source, $logged_in)`. */
  datatype Slot = Slot(source: Label, loggedIn: bool)

  predicate Has(l: seq<Entry>, name: string) {
    exists i :: 0 <= i < |l| && l[i].name == name
  }

  /** The names of a page are keys of a map, so no name occurs twice. */
  predicate UniqueNames(l: seq<Entry>) {
    forall i, j :: 0 <= i < j < |l| ==> l[i].name != l[j].name
  }

  /** The position of the first entry called `name`, as array_search over the keys finds it. */
  function IndexOf(l: seq<Entry>, name: string): (r: Option<nat>)
    ensures r.None? <==> !Has(l, name)
    ensures r.Some? ==> r.value < |l| && l[r.value].name == name
    ensures r.Some? ==> forall k :: 0 <= k < r.value ==> l[k].name != name
  {
    if |l| == 0 then None
    else if l[0].name == name then Some(0)
    else
      match IndexOf(l[1..], name)
      case None =>
        assert forall i :: 1 <= i < |l| ==> l[i] == l[1..][i - 1];
        None
      case Some(i) => Some(i + 1)
  }

  /** Stable positional insert: `e` lands at index `k`, everything else keeps its order. */
  function InsertAt(l: seq<Entry>, k: nat, e: Entry): (r: seq<Entry>)
    requires k <= |l|
    ensures |r| == |l| + 1 && r[k] == e
    ensures forall i :: 0 <= i < k ==> r[i] == l[i]
    ensures forall i :: k < i < |r| ==> r[i] == l[i - 1]
  {
    l[..k] + [e] + l[k..]
  }

  /**
   * The index insert_at_marker inserts at: just after the marker when the
   * placement is "after", at the marker's own index for any other placement;
   * None when the marker is not on the page.
   */
  function MarkerIndex(l: seq<Entry>, marker: string, placement: string): (r: Option<nat>)
    ensures r.None? <==> !Has(l, marker)
    ensures r.Some? ==> r.value <= |l|
  {
    match IndexOf(l, marker)
    case None => None
    case Some(i) => Some(if placement == "after" then i + 1 else i)
  }

  /** The page after insert_at_marker, or None when the marker is absent. */
  function InsertAtMarker(l: seq<Entry>, marker: string, e: Entry, placement: string): Option<seq<Entry>>
  {
    match MarkerIndex(l, marker, placement)
    case None => None
    case Some(k) => Some(InsertAt(l, k, e))
  }

  /** The page after `unset` of the entry called `name` (no entry, no change). */
  function Deleted(l: seq<Entry>, name: string): seq<Entry>
  {
    match IndexOf(l, name)
    case None => l
    case Some(i) => l[..i] + l[i + 1..]
  }

  /** Reference definition of deletion: every entry not called `name`, in order. */
  function Without(l: seq<Entry>, name: string): seq<Entry>
  {
    if l == [] then []
    else (if l[0].name == name then [] else [l[0]]) + Without(l[1..], name)
  }

  /**
   * The page after swap_key: the first entry called `target` is renamed to
   * `replacement` in place, keeps its login flag and is attributed to the
   * active source `active`; a page without `target` is returned as it is.
   */
  function Swapped(l: seq<Entry>, target: string, replacement: string, active: Label): seq<Entry>
  {
    match IndexOf(l, target)
    case None => l
    case Some(i) => l[i := Entry(replacement, active, l[i].loggedIn)]
  }

  /** array_keys */
  function Keys(l: seq<Entry>): (r: seq<string>)
    ensures |r| == |l| && forall i :: 0 <= i < |l| ==> r[i] == l[i].name
  {
    seq(|l|, i requires 0 <= i < |l| => l[i].name)
  }

  /** array_values */
  function Values(l: seq<Entry>): (r: seq<Slot>)
    ensures |r| == |l| && forall i :: 0 <= i < |l| ==> r[i] == Slot(l[i].source, l[i].loggedIn)
  {
    seq(|l|, i requires 0 <= i < |l| => Slot(l[i].source, l[i].loggedIn))
  }

  /**
   * array_combine of pairwise distinct keys: each key paired with the value at
   * its index.  Splitting the result again gives back the keys and the values.
   */
  function Combine(keys: seq<string>, values: seq<Slot>): (r: seq<Entry>)
    requires |keys| == |values|
    requires forall i, j :: 0 <= i < j < |keys| ==> keys[i] != keys[j]
    ensures UniqueNames(r)
    ensures Keys(r) == keys && Values(r) == values
  {
    seq(|keys|, i requires 0 <= i < |keys| => Entry(keys[i], values[i].source, values[i].loggedIn))
  }

  /**
   * swap_key: split the page into keys and values, rename the first key equal
   * to `target` and give its value the active source, then combine again.
   * The replacement must not already name another entry of the page, so the
   * combined keys stay distinct.
   */
  method SwapKey(target: string, replacement: string, modules: seq<Entry>, active: Label) returns (r: seq<Entry>)
    requires UniqueNames(modules)
    requires Has(modules, target) ==> replacement == target || !Has(modules, replacement)
    ensures r == Swapped(modules, target, replacement, active)
    ensures UniqueNames(r) && |r| == |modules|
  {
    var keys := Keys(modules);
    var values := Values(modules);
    var size := |modules|;
    var i := 0;
    while i < size
      invariant 0 <= i <= size
      invariant keys == Keys(modules) && values == Values(modules)
      invariant forall k :: 0 <= k < i ==> modules[k].name != target
    {
      if keys[i] == target {
        keys := keys[i := replacement];
        values := values[i := Slot(active, values[i].loggedIn)];
        break;
      }
      i := i + 1;
    }
    ghost var swapped := Swapped(modules, target, replacement, active);
    SwappedFacts(modules, target, replacement, active);
    assert keys == Keys(swapped) && values == Values(swapped);
    r := Combine(keys, values);
    CombineSplit(swapped);
  }

  // ---------------------------------------------------------------------
  // Properties of the list operations
  // ---------------------------------------------------------------------

  /**
   * A marker insert puts the new entry at the marker's index plus one for
   * "after" and at the marker's index otherwise; every other entry keeps its
   * relative order and the page grows by exactly one.  That a new name keeps
   * the names unique is InsertAtMarkerKeepsUnique.
   */
  lemma InsertAtMarkerPlaces(l: seq<Entry>, marker: string, e: Entry, placement: string, m: nat)
    requires UniqueNames(l) && m < |l| && l[m].name == marker
    ensures var k := if placement == "after" then m + 1 else m;
      && InsertAtMarker(l, marker, e, placement).Some?
      && var r := InsertAtMarker(l, marker, e, placement).value;
      && |r| == |l| + 1 && r[k] == e
      && r[..k] == l[..k] && r[k + 1..] == l[k..]
  {
    assert IndexOf(l, marker) == Some(m);
    var k := if placement == "after" then m + 1 else m;
    var r := InsertAtMarker(l, marker, e, placement).value;
    assert r == l[..k] + [e] + l[k..];
    assert r[..k] == l[..k];
    assert r[k + 1..] == l[k..];
  }

  lemma InsertAtMarkerAbsent(l: seq<Entry>, marker: string, e: Entry, placement: string)
    requires !Has(l, marker)
    ensures InsertAtMarker(l, marker, e, placement) == None
  {
  }

  lemma InsertAtKeepsUnique(l: seq<Entry>, k: nat, e: Entry)
    requires k <= |l| && UniqueNames(l) && !Has(l, e.name)
    ensures UniqueNames(InsertAt(l, k, e))
    ensures forall n :: Has(InsertAt(l, k, e), n) <==> n == e.name || Has(l, n)
  {
    var r := InsertAt(l, k, e);
    forall i, j | 0 <= i < j < |r|
      ensures r[i].name != r[j].name
    {
      if i < k {
        if j > k { assert r[j] == l[j - 1]; } else if j == k { assert r[j] == e; } else { assert r[j] == l[j]; }
      } else if i == k {
        assert r[j] == l[j - 1];
      } else {
        assert r[i] == l[i - 1] && r[j] == l[j - 1];
      }
    }
    forall n
      ensures Has(r, n) <==> n == e.name || Has(l, n)
    {
      if Has(l, n) {
        var j :| 0 <= j < |l| && l[j].name == n;
        if j < k { assert r[j] == l[j]; } else { assert r[j + 1] == l[j]; }
      }
      if Has(r, n) {
        var j :| 0 <= j < |r| && r[j].name == n;
        if j < k { assert r[j] == l[j]; } else if j > k { assert r[j] == l[j - 1]; }
      }
    }
  }

  lemma AppendKeepsUnique(l: seq<Entry>, e: Entry)
    requires UniqueNames(l) && !Has(l, e.name)
    ensures UniqueNames(l + [e])
    ensures forall n :: Has(l + [e], n) <==> n == e.name || Has(l, n)
  {
    assert l + [e] == InsertAt(l, |l|, e);
    InsertAtKeepsUnique(l, |l|, e);
  }

  /** An insertion that succeeds keeps the names unique and adds exactly the new name. */
  lemma InsertAtMarkerKeepsUnique(l: seq<Entry>, marker: string, e: Entry, placement: string)
    requires UniqueNames(l) && !Has(l, e.name)
    requires InsertAtMarker(l, marker, e, placement).Some?
    ensures UniqueNames(InsertAtMarker(l, marker, e, placement).value)
    ensures forall n :: Has(InsertAtMarker(l, marker, e, placement).value, n) <==> n == e.name || Has(l, n)
  {
    InsertAtKeepsUnique(l, MarkerIndex(l, marker, placement).value, e);
  }

  lemma {:induction false} WithoutAbsent(l: seq<Entry>, name: string)
    requires !Has(l, name)
    ensures Without(l, name) == l
  {
    if l != [] {
      forall j | 0 <= j < |l[1..]| ensures l[1..][j].name != name {
        assert l[1..][j] == l[j + 1];
      }
      WithoutAbsent(l[1..], name);
      assert l == [l[0]] + l[1..];
    }
  }

  /**
   * del removes exactly the entry called `name` and nothing else: on a page
   * with unique names it agrees with the filtering reference definition.
   */
  lemma {:induction false} DeletedIsWithout(l: seq<Entry>, name: string)
    requires UniqueNames(l)
    ensures Deleted(l, name) == Without(l, name)
  {
    if l == [] {
    } else if l[0].name == name {
      forall j | 0 <= j < |l[1..]| ensures l[1..][j].name != name {
        assert l[1..][j] == l[j + 1];
      }
      WithoutAbsent(l[1..], name);
    } else {
      var t := l[1..];
      assert UniqueNames(t) by {
        forall i, j | 0 <= i < j < |t| ensures t[i].name != t[j].name {
          assert t[i] == l[i + 1] && t[j] == l[j + 1];
        }
      }
      DeletedIsWithout(t, name);
      match IndexOf(t, name)
      case None =>
        assert IndexOf(l, name) == None;
      case Some(i) =>
        assert IndexOf(l, name) == Some(i + 1);
        assert l[..i + 1] + l[i + 2..] == [l[0]] + (t[..i] + t[i + 1..]);
    }
  }

  /** What del leaves: the named entry gone, every other entry still there, one entry fewer. */
  lemma DeletedFacts(l: seq<Entry>, name: string)
    requires UniqueNames(l)
    ensures var r := Deleted(l, name);
      && UniqueNames(r) && !Has(r, name)
      && (forall e :: e in r <==> e in l && e.name != name)
      && (Has(l, name) ==> |r| == |l| - 1)
      && (!Has(l, name) ==> r == l)
  {
    var r := Deleted(l, name);
    match IndexOf(l, name)
    case None =>
    case Some(i) =>
      assert forall k :: 0 <= k < i ==> r[k] == l[k];
      assert forall k :: i <= k < |r| ==> r[k] == l[k + 1];
      forall e
        ensures e in r <==> e in l && e.name != name
      {
        if e in l && e.name != name {
          var j :| 0 <= j < |l| && l[j] == e;
          if j < i { assert r[j] == e; } else { assert j != i && r[j - 1] == e; }
        }
      }
  }

  /** Splitting a page with unique names into keys and values and combining them again gives the page back. */
  lemma CombineSplit(l: seq<Entry>)
    requires UniqueNames(l)
    ensures Combine(Keys(l), Values(l)) == l
  {
    var r := Combine(Keys(l), Values(l));
    assert forall i :: 0 <= i < |l| ==> r[i].name == l[i].name && Values(r)[i] == Values(l)[i];
  }

  /**
   * swap_key renames the target in place: same index, same login flag, the
   * active source, every other entry untouched; the page keeps unique names
   * when the replacement was not on it, and loses the target name unless the
   * two are equal.
   */
  lemma SwappedFacts(l: seq<Entry>, target: string, replacement: string, active: Label)
    requires UniqueNames(l)
    requires Has(l, target) ==> replacement == target || !Has(l, replacement)
    ensures var r := Swapped(l, target, replacement, active);
      && |r| == |l| && UniqueNames(r)
      && (!Has(l, target) ==> r == l)
      && (forall i :: 0 <= i < |l| && l[i].name == target ==>
            r == l[i := Entry(replacement, active, l[i].loggedIn)])
      && (replacement != target ==> !Has(r, target))
      && (Has(l, target) ==> Has(r, replacement))
  {
    var r := Swapped(l, target, replacement, active);
    match IndexOf(l, target)
    case None =>
    case Some(m) =>
      forall i, j | 0 <= i < j < |r| ensures r[i].name != r[j].name {
        if i == m { assert r[j] == l[j]; }
        else if j == m { assert r[i] == l[i]; }
      }
      if replacement != target {
        forall j | 0 <= j < |r| ensures r[j].name != target {
          if j != m { assert r[j] == l[j]; }
        }
      }
      assert r[m].name == replacement;
  }
}
