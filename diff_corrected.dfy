/** A corrected `arrayRecursiveDiff`. getDataForSave promises to replace "only
    the fields which were modified during execution" (DbHttpSession.php:251-252),
    but the diff at ArrayHelper.php:19-23 recurses whenever the written value is
    an array, even when the snapshot held a non-array there, and drops an empty
    recursive result: a session variable changed from 5 to [] is not recorded
    (`Scenarios.EmptyArrayEditLost`). Here the diff recurses only when both
    values are arrays and otherwise compares them, so every such edit is kept. */
module CorrectedDiff {
  import opened PhpArray
  import opened ArrayHelper
  import opened MergeProps
  import opened PruneProps

  /** `arrayRecursiveDiff` recursing only into two arrays. */
  function DiffFixed(a: seq<Entry>, b: seq<Entry>): (r: seq<Entry>)
    ensures forall k :: HasKey(r, k) ==> HasKey(a, k)
    ensures UniqueKeys(r)
    decreases Size(a)
  {
    if a == [] then []
    else
      SizeDecreases(a, |a| - 1);
      var p := a[..|a| - 1];
      var acc := DiffFixed(p, b);
      var Entry(k, v) := a[|a| - 1];
      PrefixKeys(a);
      if HasKey(b, k) then
        if v.Arr? && Get(b, k).Arr? then
          var d := DiffFixed(v.entries, Get(b, k).entries);
          if |d| > 0 then Set(acc, k, Arr(d)) else acc
        else if v != Get(b, k) then Set(acc, k, v)
        else acc
      else Set(acc, k, v)
  }

  /** What the corrected diff holds at `k` when `a`'s value there is `v`. */
  function DiffFixedAt(v: Value, b: seq<Entry>, k: Key): Option<Value> {
    if HasKey(b, k) then
      if v.Arr? && Get(b, k).Arr? then
        var d := DiffFixed(v.entries, Get(b, k).entries);
        if d != [] then Some(Arr(d)) else None
      else if v != Get(b, k) then Some(v)
      else None
    else Some(v)
  }

  /** When the last entry's key is new, that entry decides the diff at its key. */
  lemma DiffFixedStep(a: seq<Entry>, b: seq<Entry>, k: Key)
    requires a != [] && !HasKey(a[..|a| - 1], a[|a| - 1].key)
    ensures Lookup(DiffFixed(a, b), k) ==
      if k == a[|a| - 1].key then DiffFixedAt(a[|a| - 1].val, b, k)
      else Lookup(DiffFixed(a[..|a| - 1], b), k)
  {
    var acc := DiffFixed(a[..|a| - 1], b);
    assert !HasKey(acc, a[|a| - 1].key);
  }

  /** Key by key: a key `a` holds is recorded exactly when its value differs
      from `b`'s, recursing only where both values are arrays. */
  lemma {:induction false} DiffFixedLookup(a: seq<Entry>, b: seq<Entry>, k: Key)
    requires UniqueKeys(a)
    ensures !HasKey(a, k) ==> Lookup(DiffFixed(a, b), k) == None
    ensures HasKey(a, k) ==> Lookup(DiffFixed(a, b), k) == DiffFixedAt(Get(a, k), b, k)
    decreases |a|
  {
    if a != [] {
      var p, e := a[..|a| - 1], a[|a| - 1];
      assert a == p + [e];
      assert UniqueKeys(p);
      DiffFixedLookup(p, b, k);
      LookupAppend(p, e, k);
      assert !HasKey(p, e.key) by {
        assert forall i :: 0 <= i < |p| ==> p[i].key != e.key;
      }
      DiffFixedStep(a, b, k);
    }
  }

  /** Every edit is recorded: a key whose old or new value is not an array is
      in the corrected diff, with its new value, exactly when it changed. */
  lemma DiffFixedRecordsEdits(a: seq<Entry>, b: seq<Entry>, k: Key)
    requires UniqueKeys(a) && HasKey(a, k)
    requires !Get(a, k).Arr? || !(HasKey(b, k) && Get(b, k).Arr?)
    ensures Lookup(DiffFixed(a, b), k) == if Lookup(b, k) == Lookup(a, k) then None else Some(Get(a, k))
  {
    DiffFixedLookup(a, b, k);
  }

  /** getDataForSave's resolution with the corrected diff. */
  function ResolveFixed(init: seq<Entry>, final: seq<Entry>, current: seq<Entry>): (r: seq<Entry>)
    ensures UniqueKeys(current) ==> UniqueKeys(r)
  {
    Prune(Arr(Overlay(current, DiffFixed(final, init))), init, final).entries
  }

  /** A string key the writer changed away from a non-array value is stored
      with the writer's value, arrays included, unless the re-read row holds
      an array there that the new array is merged into. */
  lemma ResolveFixedKeepsEdit(init: seq<Entry>, final: seq<Entry>, current: seq<Entry>, s: string)
    requires UniqueKeys(init) && UniqueKeys(final)
    requires HasKey(final, StrKey(s)) && Lookup(init, StrKey(s)) != Lookup(final, StrKey(s))
    requires !(HasKey(init, StrKey(s)) && Get(init, StrKey(s)).Arr?)
    requires !(Get(final, StrKey(s)).Arr? && HasKey(current, StrKey(s)) && Get(current, StrKey(s)).Arr?)
    ensures Lookup(ResolveFixed(init, final, current), StrKey(s)) == Lookup(final, StrKey(s))
  {
    var k := StrKey(s);
    var d := DiffFixed(final, init);
    var m := Overlay(current, d);
    DiffFixedRecordsEdits(final, init, k);
    assert Lookup(d, k) == Some(Get(final, k));
    OverlayStringKey(current, d, s);
    assert Lookup(m, k) == Lookup(final, k);
    PruneLookup(Arr(m), init, final, k);
  }

  /** The race the code as written loses: snapshot `{k: 5}`, written `{k: []}`,
      re-read `{k: 5}` now stores `{k: []}`. */
  lemma EmptyArrayEditKept()
    ensures ResolveFixed([Entry(StrKey("k"), Scalar(Int(5)))], [Entry(StrKey("k"), Arr([]))],
                         [Entry(StrKey("k"), Scalar(Int(5)))])
         == [Entry(StrKey("k"), Arr([]))]
  {
    var e, f := Entry(StrKey("k"), Scalar(Int(5))), Entry(StrKey("k"), Arr([]));
    assert [e][0].key == StrKey("k");
    assert [f][0].key == StrKey("k");
    assert DiffFixed([f], [e]) == [f];
    assert Overlay([e], [f]) == [f];
    assert Prune(Arr([f]), [e], [f]) == Arr([f]);
  }
}
