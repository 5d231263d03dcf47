/** What `arrayRecursiveDiff` records (ArrayHelper.php:13-39), key by key. */
module DiffProps {
  import opened PhpArray
  import opened ArrayHelper

  /** The diff read at one key: nothing for a key `a` lacks; `a`'s own value for
      a key `b` lacks; for a key both hold, `a`'s non-array value only when it
      differs from `b`'s, and `a`'s nested array only as its non-empty recursive
      diff. */
  lemma {:induction false} DiffLookup(a: seq<Entry>, b: seq<Entry>, k: Key)
    requires UniqueKeys(a)
    ensures !HasKey(a, k) ==> Lookup(Diff(a, b), k) == None
    ensures HasKey(a, k) && !HasKey(b, k) ==> Lookup(Diff(a, b), k) == Some(Get(a, k))
    ensures HasKey(a, k) && HasKey(b, k) && !Get(a, k).Arr? ==>
      Lookup(Diff(a, b), k) == if Get(a, k) != Get(b, k) then Some(Get(a, k)) else None
    ensures HasKey(a, k) && HasKey(b, k) && Get(a, k).Arr? ==>
      Lookup(Diff(a, b), k) ==
        var d := Diff(Get(a, k).entries, AsArray(Get(b, k)));
        if d != [] then Some(Arr(d)) else None
    decreases |a|
  {
    if a != [] {
      var p, e := a[..|a| - 1], a[|a| - 1];
      assert a == p + [e];
      assert UniqueKeys(p);
      DiffLookup(p, b, k);
      LookupAppend(p, e, k);
      assert !HasKey(p, e.key) by {
        assert forall i :: 0 <= i < |p| ==> p[i].key != e.key;
      }
      DiffLookupStep(a, b, k);
    }
  }

  /** What the diff holds at `k` when `a`'s value there is `v`. */
  function DiffAt(v: Value, b: seq<Entry>, k: Key): Option<Value> {
    if HasKey(b, k) then
      if v.Arr? then
        var d := Diff(v.entries, AsArray(Get(b, k)));
        if d != [] then Some(Arr(d)) else None
      else if v != Get(b, k) then Some(v)
      else None
    else Some(v)
  }

  /** When the last entry's key is new, that entry decides the diff at its
      key and every other key reads as in the diff of the entries before it. */
  lemma DiffLookupStep(a: seq<Entry>, b: seq<Entry>, k: Key)
    requires a != [] && !HasKey(a[..|a| - 1], a[|a| - 1].key)
    ensures Lookup(Diff(a, b), k) ==
      if k == a[|a| - 1].key then DiffAt(a[|a| - 1].val, b, k)
      else Lookup(Diff(a[..|a| - 1], b), k)
  {
    var acc := Diff(a[..|a| - 1], b);
    assert !HasKey(acc, a[|a| - 1].key);
  }

  /** An array differs from itself nowhere: `arrayRecursiveDiff($a, $a)` is empty. */
  lemma {:induction false} DiffOfSelf(v: Value)
    requires v.Arr? && WellFormed(v)
    ensures Diff(v.entries, v.entries) == []
    decreases v
  {
    var a := v.entries;
    var r := Diff(a, a);
    forall k ensures !HasKey(r, k) {
      DiffLookup(a, a, k);
      if HasKey(a, k) {
        var i := IndexOf(a, k);
        if a[i].val.Arr? {
          DiffOfSelf(a[i].val);
        }
      }
    }
    assert |r| > 0 ==> HasKey(r, r[0].key);
  }

  /** Against an empty base every entry is new: `arrayRecursiveDiff($a, [])` is `$a`. */
  lemma {:induction false} DiffAgainstEmpty(a: seq<Entry>)
    requires UniqueKeys(a)
    ensures Diff(a, []) == a
    decreases |a|
  {
    if a != [] {
      var p, e := a[..|a| - 1], a[|a| - 1];
      assert a == p + [e];
      assert UniqueKeys(p);
      DiffAgainstEmpty(p);
      assert !HasKey(p, e.key) by {
        assert forall i :: 0 <= i < |p| ==> p[i].key != e.key;
      }
    }
  }

  /** Against a base without integer keys, the list part of the diff is the
      whole list part of `a`, in order. */
  lemma {:induction false} DiffListPart(a: seq<Entry>, b: seq<Entry>)
    requires UniqueKeys(a) && !HasIntKey(b)
    ensures ListValues(Diff(a, b)) == ListValues(a)
    decreases |a|
  {
    if a != [] {
      var p, e := a[..|a| - 1], a[|a| - 1];
      assert a == p + [e];
      assert UniqueKeys(p);
      DiffListPart(p, b);
      ListValuesAppend(p, e);
      var acc := Diff(p, b);
      if e.key.IntKey? {
        assert !HasKey(b, e.key);
        assert !HasKey(acc, e.key) by {
          assert forall i :: 0 <= i < |p| ==> p[i].key != e.key;
        }
        ListValuesSet(acc, e.key, e.val);
      } else if HasKey(b, e.key) {
        if e.val.Arr? {
          ListValuesSet(acc, e.key, Arr(Diff(e.val.entries, AsArray(Get(b, e.key)))));
        } else {
          ListValuesSet(acc, e.key, e.val);
        }
      } else {
        ListValuesSet(acc, e.key, e.val);
      }
    }
  }
}
