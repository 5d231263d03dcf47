/** What `merge` keeps and what it overwrites (ArrayHelper.php:71-92). */
module MergeProps {
  import opened PhpArray
  import opened ArrayHelper

  /** `merge($a, [])` is `$a`. */
  lemma OverlayNothing(a: seq<Entry>)
    ensures Overlay(a, []) == a
  {}

  /** Integer-keyed (list) entries are never lost: the result's list part is
      `a`'s followed by `b`'s, in order. */
  lemma {:induction false} OverlayKeepsListEntries(a: seq<Entry>, b: seq<Entry>)
    ensures ListValues(Overlay(a, b)) == ListValues(a) + ListValues(b)
    decreases |b|
  {
    if b != [] {
      var p, e := b[..|b| - 1], b[|b| - 1];
      assert b == p + [e];
      OverlayKeepsListEntries(a, p);
      ListValuesAppend(p, e);
      OverlayListStep(a, b);
    }
  }

  /** One step of `merge` adds the value of `b`'s last entry to the list part
      exactly when its key is an integer. */
  lemma OverlayListStep(a: seq<Entry>, b: seq<Entry>)
    requires b != []
    ensures ListValues(Overlay(a, b)) == ListValues(Overlay(a, b[..|b| - 1])) +
      if b[|b| - 1].key.IntKey? then [b[|b| - 1].val] else []
  {
    var acc, e := Overlay(a, b[..|b| - 1]), b[|b| - 1];
    if e.key.IntKey? {
      if HasKey(acc, e.key) {
        ListValuesPush(acc, e.val);
      } else {
        ListValuesSet(acc, e.key, e.val);
      }
    } else if e.val.Arr? && HasKey(acc, e.key) && Get(acc, e.key).Arr? {
      ListValuesSet(acc, e.key, Arr(Overlay(Get(acc, e.key).entries, e.val.entries)));
    } else {
      ListValuesSet(acc, e.key, e.val);
    }
  }

  /** The integer-keyed entries of `a` stay where they are, untouched. */
  lemma {:induction false} OverlayKeepsIntEntries(a: seq<Entry>, b: seq<Entry>)
    ensures forall i :: 0 <= i < |a| && a[i].key.IntKey? ==> Overlay(a, b)[i] == a[i]
    decreases |b|
  {
    if b != [] {
      var p, e := b[..|b| - 1], b[|b| - 1];
      assert b == p + [e];
      OverlayKeepsIntEntries(a, p);
      var acc := Overlay(a, p);
      assert Keys(a) <= Keys(acc);
      forall i | 0 <= i < |a| && a[i].key.IntKey?
        ensures Overlay(a, b)[i] == a[i]
      {
        assert Keys(acc)[i] == a[i].key;
      }
    }
  }

  /** A string key of `b` ends up with `b`'s value, merged recursively when
      both the old and the new value are arrays; a string key `b` lacks keeps
      `a`'s value. */
  lemma {:induction false} OverlayStringKey(a: seq<Entry>, b: seq<Entry>, s: string)
    requires UniqueKeys(b)
    ensures Lookup(Overlay(a, b), StrKey(s)) ==
      match Lookup(b, StrKey(s))
      case None => Lookup(a, StrKey(s))
      case Some(bv) =>
        if bv.Arr? && Lookup(a, StrKey(s)).Some? && Lookup(a, StrKey(s)).value.Arr? then
          Some(Arr(Overlay(Lookup(a, StrKey(s)).value.entries, bv.entries)))
        else Some(bv)
    decreases |b|
  {
    if b != [] {
      var k := StrKey(s);
      var p, e := b[..|b| - 1], b[|b| - 1];
      assert b == p + [e];
      assert UniqueKeys(p);
      OverlayStringKey(a, p, s);
      LookupAppend(p, e, k);
      if e.key == k {
        assert !HasKey(p, k) by {
          assert forall i :: 0 <= i < |p| ==> p[i].key != e.key;
        }
      }
    }
  }

  /** One integer-keyed entry of `b`: the result so far is left untouched and
      `v` is appended, under its own key when that key is free, and otherwise
      under the next free integer key, `NextIndex`, above every integer key
      already there. */
  lemma OverlayIntStep(a: seq<Entry>, b: seq<Entry>, n: int, v: Value)
    ensures
      var r0, r := Overlay(a, b), Overlay(a, b + [Entry(IntKey(n), v)]);
      && |r| == |r0| + 1 && r[..|r0|] == r0 && r[|r0|].val == v
      && (!HasKey(r0, IntKey(n)) ==> r[|r0|].key == IntKey(n))
      && (HasKey(r0, IntKey(n)) ==>
            r[|r0|].key == IntKey(NextIndex(r0)) &&
            r[|r0|].key.IntKey? &&
            forall i :: 0 <= i < |r0| && r0[i].key.IntKey? ==> r0[i].key.i < r[|r0|].key.i)
  {
    assert (b + [Entry(IntKey(n), v)])[..|b|] == b;
  }
}
