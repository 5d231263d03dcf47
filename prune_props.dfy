/** What `arrayRemovedRecursiveDiff` deletes and what it keeps
    (ArrayHelper.php:48-63). */
module PruneProps {
  import opened PhpArray
  import opened ArrayHelper

  /** With nothing to compare against, nothing is deleted. */
  lemma PruneNothing(a: Value, c: seq<Entry>)
    ensures Prune(a, [], c) == a
  {}

  /** Key by key: a key `b` lacks is untouched; a key `b` holds with a
      non-array value survives only if `c` has it too; a key `b` holds with an
      array is never deleted, only recursed into when the result has it. */
  lemma {:induction false} PruneLookup(a: Value, b: seq<Entry>, c: seq<Entry>, k: Key)
    requires a.Arr? && UniqueKeys(b)
    ensures !HasKey(b, k) ==> Lookup(Prune(a, b, c).entries, k) == Lookup(a.entries, k)
    ensures HasKey(b, k) && !Get(b, k).Arr? ==>
      Lookup(Prune(a, b, c).entries, k) == if HasKey(c, k) then Lookup(a.entries, k) else None
    ensures HasKey(b, k) && Get(b, k).Arr? ==>
      Lookup(Prune(a, b, c).entries, k) ==
        match Lookup(a.entries, k)
        case None => None
        case Some(x) => Some(Prune(x, Get(b, k).entries, SubArray(c, k)))
    decreases |b|
  {
    if b != [] {
      var p, e := b[..|b| - 1], b[|b| - 1];
      assert b == p + [e];
      assert UniqueKeys(p);
      PruneLookup(a, p, c, k);
      LookupAppend(p, e, k);
      var acc := Prune(a, p, c);
      if k == e.key {
        assert !HasKey(p, k) by {
          assert forall i :: 0 <= i < |p| ==> p[i].key != e.key;
        }
        assert Lookup(acc.entries, k) == Lookup(a.entries, k);
      } else {
        assert Lookup(Prune(a, b, c).entries, k) == Lookup(acc.entries, k);
      }
    }
  }

  /** When every non-array key of `p` is in `c` and every array of `p` is
      `c`'s own value at that key, nothing is deleted. */
  lemma {:induction false} PruneKeepsAll(a: Value, p: seq<Entry>, c: seq<Entry>)
    requires forall i :: 0 <= i < |p| ==> HasKey(c, p[i].key)
    requires forall i :: 0 <= i < |p| && p[i].val.Arr? ==>
      Lookup(c, p[i].key) == Some(p[i].val) && WellFormed(p[i].val)
    ensures Prune(a, p, c) == a
    decreases Size(p)
  {
    if p != [] {
      SizeDecreases(p, |p| - 1);
      var q, e := p[..|p| - 1], p[|p| - 1];
      PruneKeepsAll(a, q, c);
      if e.val.Arr? && a.Arr? && HasKey(a.entries, e.key) {
        var s := e.val.entries;
        forall i | 0 <= i < |s| && s[i].val.Arr?
          ensures Lookup(s, s[i].key) == Some(s[i].val) && WellFormed(s[i].val)
        {
          LookupAt(s, i);
        }
        assert forall i :: 0 <= i < |s| ==> HasKey(s, s[i].key);
        PruneKeepsAll(Get(a.entries, e.key), s, s);
        SetSame(a.entries, e.key);
      }
    }
  }

  /** Removing against the same array twice deletes nothing:
      `arrayRemovedRecursiveDiff($a, $b, $b)` is `$a`. */
  lemma PruneOfSame(a: Value, b: seq<Entry>)
    requires WellFormed(Arr(b))
    ensures Prune(a, b, b) == a
  {
    forall i | 0 <= i < |b| && b[i].val.Arr?
      ensures Lookup(b, b[i].key) == Some(b[i].val) && WellFormed(b[i].val)
    {
      LookupAt(b, i);
    }
    assert forall i :: 0 <= i < |b| ==> HasKey(b, b[i].key);
    PruneKeepsAll(a, b, b);
  }

  /** Removing along string keys only leaves the list part alone. */
  lemma {:induction false} PruneKeepsListPart(a: Value, b: seq<Entry>, c: seq<Entry>)
    requires a.Arr? && !HasIntKey(b)
    ensures ListValues(Prune(a, b, c).entries) == ListValues(a.entries)
    decreases |b|
  {
    if b != [] {
      var p, e := b[..|b| - 1], b[|b| - 1];
      assert !HasIntKey(p) by {
        assert forall i :: 0 <= i < |p| ==> p[i] == b[i];
      }
      assert !e.key.IntKey?;
      PruneKeepsListPart(a, p, c);
      var acc := Prune(a, p, c);
      if e.val.Arr? {
        if HasKey(acc.entries, e.key) {
          ListValuesSet(acc.entries, e.key, Prune(Get(acc.entries, e.key), e.val.entries, SubArray(c, e.key)));
        }
      } else if !HasKey(c, e.key) {
        ListValuesUnset(acc.entries, e.key);
      }
    }
  }
}
