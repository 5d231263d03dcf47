/** The three-way merge that getDataForSave runs (DbHttpSession.php:261-279):
    what the writer changed since the session was opened is laid over the row
    re-read under lock, and then the keys the writer deleted are deleted again. */
module ConflictResolver {
  import opened PhpArray
  import opened ArrayHelper
  import opened DiffProps
  import opened MergeProps
  import opened PruneProps

  /** `arrayRemovedRecursiveDiff(merge($current, arrayRecursiveDiff($final, $init)), $init, $final)` */
  function Resolve(init: seq<Entry>, final: seq<Entry>, current: seq<Entry>): (r: seq<Entry>)
    ensures UniqueKeys(current) ==> UniqueKeys(r)
  {
    Prune(Arr(Overlay(current, Diff(final, init))), init, final).entries
  }

  /** Writing back exactly what was read changes nothing, whatever another
      request stored meanwhile. */
  lemma ResolveNoOp(init: seq<Entry>, current: seq<Entry>)
    requires WellFormed(Arr(init))
    ensures Resolve(init, init, current) == current
  {
    DiffOfSelf(Arr(init));
    PruneOfSame(Arr(current), init);
  }

  /** A session variable the writer left as it found it takes the value the
      locked re-read found, so a concurrent writer's change to it survives. */
  lemma ResolveUntouchedKey(init: seq<Entry>, final: seq<Entry>, current: seq<Entry>, s: string)
    requires WellFormed(Arr(init)) && UniqueKeys(final)
    requires Lookup(init, StrKey(s)) == Lookup(final, StrKey(s))
    ensures Lookup(Resolve(init, final, current), StrKey(s)) == Lookup(current, StrKey(s))
  {
    var k := StrKey(s);
    var d := Diff(final, init);
    var m := Overlay(current, d);
    DiffLookup(final, init, k);
    if HasKey(final, k) && Get(final, k).Arr? {
      var i := IndexOf(init, k);
      DiffOfSelf(init[i].val);
    }
    assert Lookup(d, k) == None;
    OverlayStringKey(current, d, s);
    PruneLookup(Arr(m), init, final, k);
    if HasKey(init, k) && Get(init, k).Arr? && HasKey(m, k) {
      var i := IndexOf(init, k);
      assert WellFormed(init[i].val);
      PruneOfSame(Get(m, k), Get(init, k).entries);
    }
  }

  /** A session variable the writer set to a new non-array value is stored
      with that value, whatever the locked re-read found. */
  lemma ResolveKeepsLocalEdit(init: seq<Entry>, final: seq<Entry>, current: seq<Entry>, s: string)
    requires UniqueKeys(init) && UniqueKeys(final)
    requires HasKey(final, StrKey(s)) && !Get(final, StrKey(s)).Arr?
    requires Lookup(init, StrKey(s)) != Lookup(final, StrKey(s))
    ensures Lookup(Resolve(init, final, current), StrKey(s)) == Lookup(final, StrKey(s))
  {
    var k := StrKey(s);
    var d := Diff(final, init);
    var m := Overlay(current, d);
    DiffLookup(final, init, k);
    assert Lookup(d, k) == Lookup(final, k);
    OverlayStringKey(current, d, s);
    assert Lookup(m, k) == Lookup(final, k);
    PruneLookup(Arr(m), init, final, k);
  }

  /** A non-array value the writer deleted stays deleted, even if the locked
      re-read still holds it. */
  lemma ResolveDropsDeleted(init: seq<Entry>, final: seq<Entry>, current: seq<Entry>, k: Key)
    requires UniqueKeys(init)
    requires HasKey(init, k) && !Get(init, k).Arr? && !HasKey(final, k)
    ensures !HasKey(Resolve(init, final, current), k)
  {
    PruneLookup(Arr(Overlay(current, Diff(final, init))), init, final, k);
  }

  /** With a base that has no list entries, the list entries of both the
      re-read row and the writer survive: the re-read row's first, then the
      writer's, in order. */
  lemma ResolveKeepsListEntries(init: seq<Entry>, final: seq<Entry>, current: seq<Entry>)
    requires UniqueKeys(final) && !HasIntKey(init)
    ensures ListValues(Resolve(init, final, current)) == ListValues(current) + ListValues(final)
  {
    var d := Diff(final, init);
    DiffListPart(final, init);
    OverlayKeepsListEntries(current, d);
    PruneKeepsListPart(Arr(Overlay(current, d)), init, final);
  }
}
