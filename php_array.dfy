/** PHP ordered arrays as the session code sees them: an ordered list of
    key/value entries, where a value is a scalar or another array.

    Reading a key (`$a[$k]`, `array_key_exists`) looks at the first entry with
    that key, writing a key (`$a[$k] = $v`) replaces that entry in place or
    appends a new one, `unset` drops the key, and `$a[] = $v` appends under the
    next free integer key. PHP never lets an array hold a key twice; that
    invariant is `UniqueKeys` (one level) and `WellFormed` (every level), and
    the operations here keep it. */
module PhpArray {

  datatype Option<+T> = None | Some(value: T) {
    function GetOr(default: T): T {
      match this
      case Some(v) => v
      case None => default
    }
  }

  /** A PHP scalar stored in a session. An object is its class name and its
      serialized state, and two objects are equal when both agree; this is
      stricter than PHP's loose `!=`, which compares properties loosely. */
  datatype Atom = Null | Bool(b: bool) | Int(i: int) | Str(s: string) | Obj(cls: string, state: string)

  /** An array key. PHP turns canonical decimal strings such as "5" into the
      integer key 5, so a `StrKey` is never such a string. */
  datatype Key = IntKey(i: int) | StrKey(s: string)

  datatype Value = Scalar(atom: Atom) | Arr(entries: seq<Entry>)

  datatype Entry = Entry(key: Key, val: Value)

  /** The keys of `a`, in order. */
  function Keys(a: seq<Entry>): seq<Key> {
    seq(|a|, i requires 0 <= i < |a| => a[i].key)
  }

  /** `array_key_exists($k, $a)` */
  predicate HasKey(a: seq<Entry>, k: Key) {
    exists i :: 0 <= i < |a| && a[i].key == k
  }

  /** No key occurs twice in `a`. */
  predicate UniqueKeys(a: seq<Entry>) {
    forall i, j :: 0 <= i < j < |a| ==> a[i].key != a[j].key
  }

  /** Every array inside `v`, at every depth, has unique keys. */
  predicate WellFormed(v: Value) {
    match v
    case Scalar(_) => true
    case Arr(s) => UniqueKeys(s) && forall i :: 0 <= i < |s| ==> WellFormed(s[i].val)
  }

  /** Position of the entry that `$a[$k]` reads. */
  function IndexOf(a: seq<Entry>, k: Key): (i: nat)
    requires HasKey(a, k)
    ensures i < |a| && a[i].key == k
    ensures forall j :: 0 <= j < i ==> a[j].key != k
  {
    if a[0].key == k then 0
    else
      assert HasKey(a[1..], k) by {
        var j :| 0 <= j < |a| && a[j].key == k;
        assert a[1..][j - 1].key == k;
      }
      1 + IndexOf(a[1..], k)
  }

  /** `$a[$k]` for a key that exists. */
  function Get(a: seq<Entry>, k: Key): Value
    requires HasKey(a, k)
  {
    a[IndexOf(a, k)].val
  }

  /** `$a[$k] ?? null`, with the missing key made explicit. */
  function Lookup(a: seq<Entry>, k: Key): Option<Value> {
    if HasKey(a, k) then Some(Get(a, k)) else None
  }

  /** A value used where PHP expects an array: a non-array behaves as the empty
      array. For a scalar or null that is PHP 7's behaviour (array_key_exists on
      it finds nothing); an object is also taken as empty, where PHP 7 looks up
      its properties and then fails to index it. */
  function AsArray(v: Value): seq<Entry> {
    if v.Arr? then v.entries else []
  }

  /** `$c[$k]` used as an array: a missing key reads null, which behaves as [];
      a non-array value is taken as `AsArray` takes it. */
  function SubArray(c: seq<Entry>, k: Key): (s: seq<Entry>)
    ensures HasKey(c, k) && Get(c, k).Arr? ==> s == Get(c, k).entries
    ensures !(HasKey(c, k) && Get(c, k).Arr?) ==> s == []
  {
    match Lookup(c, k)
    case None => []
    case Some(v) => AsArray(v)
  }

  /** Two arrays with the same keys in the same order read a key at the same position. */
  lemma IndexOfSameKeys(a: seq<Entry>, b: seq<Entry>, k: Key)
    requires |a| == |b|
    requires forall i :: 0 <= i < |a| ==> a[i].key == b[i].key
    requires HasKey(a, k)
    ensures HasKey(b, k) && IndexOf(a, k) == IndexOf(b, k)
  {
    var i := IndexOf(a, k);
    assert b[i].key == k;
    var j := IndexOf(b, k);
    assert a[j].key == k;
  }

  /** Reading a key of `p + [e]`: `p` wins, then `e`. */
  lemma LookupAppend(p: seq<Entry>, e: Entry, k: Key)
    ensures Lookup(p + [e], k) ==
      if HasKey(p, k) then Lookup(p, k) else if e.key == k then Some(e.val) else None
  {
    var q := p + [e];
    if HasKey(p, k) {
      var i := IndexOf(p, k);
      assert q[i].key == k;
      var j := IndexOf(q, k);
      assert j <= i;
      assert p[j].key == k;
    } else if e.key == k {
      assert forall t :: 0 <= t < |p| ==> q[t].key != k;
      assert q[|p|].key == k;
    } else {
      assert forall t :: 0 <= t < |q| ==> q[t].key != k;
    }
  }

  /** In an array with unique keys, every entry is what its key reads. */
  lemma LookupAt(a: seq<Entry>, i: nat)
    requires UniqueKeys(a) && i < |a|
    ensures Lookup(a, a[i].key) == Some(a[i].val)
  {
    assert HasKey(a, a[i].key);
    var j := IndexOf(a, a[i].key);
    assert a[j].key == a[i].key;
  }

  /** `$a[$k] = $v`: replaces the entry for `k` in place, or appends one. */
  function Set(a: seq<Entry>, k: Key, v: Value): (r: seq<Entry>)
    ensures Keys(r) == if HasKey(a, k) then Keys(a) else Keys(a) + [k]
    ensures Lookup(r, k) == Some(v)
    ensures forall j :: j != k ==> Lookup(r, j) == Lookup(a, j)
    ensures forall i :: 0 <= i < |a| && a[i].key != k ==> r[i] == a[i]
    ensures UniqueKeys(a) ==> UniqueKeys(r)
  {
    if HasKey(a, k) then
      var i := IndexOf(a, k);
      var r := a[i := Entry(k, v)];
      assert forall j :: j != k ==> Lookup(r, j) == Lookup(a, j) by {
        forall j | j != k && HasKey(a, j)
          ensures Lookup(r, j) == Lookup(a, j)
        {
          IndexOfSameKeys(a, r, j);
        }
        forall j | j != k && HasKey(r, j)
          ensures HasKey(a, j)
        {
          IndexOfSameKeys(r, a, j);
        }
      }
      IndexOfSameKeys(a, r, k);
      r
    else
      var r := a + [Entry(k, v)];
      forall j ensures Lookup(r, j) == if j == k then Some(v) else Lookup(a, j) {
        LookupAppend(a, Entry(k, v), j);
      }
      r
  }

  /** Writing back the value a key already holds changes nothing. */
  lemma SetSame(a: seq<Entry>, k: Key)
    requires HasKey(a, k)
    ensures Set(a, k, Get(a, k)) == a
  {
    var i := IndexOf(a, k);
    assert a[i := Entry(k, a[i].val)] == a;
  }

  /** `unset($a[$k])`: drops the key, keeps every other entry in order. */
  function Unset(a: seq<Entry>, k: Key): (r: seq<Entry>)
    ensures !HasKey(r, k)
    ensures forall j :: j != k ==> Lookup(r, j) == Lookup(a, j)
    ensures UniqueKeys(a) ==> UniqueKeys(r)
    ensures forall i :: 0 <= i < |r| ==> r[i] in a
    ensures !HasKey(a, k) ==> r == a
    ensures UniqueKeys(a) && HasKey(a, k) ==> r == a[..IndexOf(a, k)] + a[IndexOf(a, k) + 1..]
  {
    if a == [] then []
    else
      var p, e := a[..|a| - 1], a[|a| - 1];
      assert a == p + [e];
      var rp := Unset(p, k);
      UnsetStep(a, k, p, e, rp);
      if e.key == k then rp else rp + [e]
  }

  /** Every postcondition of `Unset` over `p + [e]`, from those over `p`. */
  lemma UnsetStep(a: seq<Entry>, k: Key, p: seq<Entry>, e: Entry, rp: seq<Entry>)
    requires a == p + [e]
    requires !HasKey(rp, k)
    requires forall j :: j != k ==> Lookup(rp, j) == Lookup(p, j)
    requires UniqueKeys(p) ==> UniqueKeys(rp)
    requires forall i :: 0 <= i < |rp| ==> rp[i] in p
    requires !HasKey(p, k) ==> rp == p
    requires UniqueKeys(p) && HasKey(p, k) ==> rp == p[..IndexOf(p, k)] + p[IndexOf(p, k) + 1..]
    ensures var r := if e.key == k then rp else rp + [e];
      && !HasKey(r, k)
      && (forall j :: j != k ==> Lookup(r, j) == Lookup(a, j))
      && (UniqueKeys(a) ==> UniqueKeys(r))
      && (forall i :: 0 <= i < |r| ==> r[i] in a)
      && (!HasKey(a, k) ==> r == a)
      && (UniqueKeys(a) && HasKey(a, k) ==> r == a[..IndexOf(a, k)] + a[IndexOf(a, k) + 1..])
  {
    UnsetStepLookups(a, k, p, e, rp);
    UnsetStepEntries(a, k, p, e, rp);
    if !HasKey(a, k) {
      assert a[|a| - 1] == e;
      assert !HasKey(p, k) by {
        forall i | 0 <= i < |p| ensures a[i] == p[i] {}
      }
      assert e.key != k && rp + [e] == a;
    }
    if UniqueKeys(a) && HasKey(a, k) {
      assert UniqueKeys(p) by {
        assert forall i :: 0 <= i < |p| ==> p[i] == a[i];
      }
      UnsetAt(a, k, p, e, rp);
    }
  }

  /** `Unset`'s lookups over `p + [e]`, from those over `p`. */
  lemma UnsetStepLookups(a: seq<Entry>, k: Key, p: seq<Entry>, e: Entry, rp: seq<Entry>)
    requires a == p + [e]
    requires !HasKey(rp, k)
    requires forall j :: j != k ==> Lookup(rp, j) == Lookup(p, j)
    ensures var r := if e.key == k then rp else rp + [e];
      !HasKey(r, k) && forall j :: j != k ==> Lookup(r, j) == Lookup(a, j)
  {
    var r := if e.key == k then rp else rp + [e];
    forall j | j != k ensures Lookup(r, j) == Lookup(a, j) {
      LookupAppend(p, e, j);
      if e.key != k {
        LookupAppend(rp, e, j);
      }
    }
    if e.key != k {
      assert forall i :: 0 <= i < |rp| ==> rp[i].key != k;
      assert forall i :: 0 <= i < |r| ==> r[i].key != k;
    }
  }

  /** `Unset`'s entries over `p + [e]` come from it and keep keys unique. */
  lemma UnsetStepEntries(a: seq<Entry>, k: Key, p: seq<Entry>, e: Entry, rp: seq<Entry>)
    requires a == p + [e]
    requires UniqueKeys(p) ==> UniqueKeys(rp)
    requires forall i :: 0 <= i < |rp| ==> rp[i] in p
    ensures var r := if e.key == k then rp else rp + [e];
      (UniqueKeys(a) ==> UniqueKeys(r)) && forall i :: 0 <= i < |r| ==> r[i] in a
  {
    assert forall x :: x in p ==> x in a;
    assert e in a;
    if UniqueKeys(a) {
      assert UniqueKeys(p) by {
        assert forall i :: 0 <= i < |p| ==> p[i] == a[i];
      }
      if e.key != k {
        forall i | 0 <= i < |rp| ensures rp[i].key != e.key {
          var j :| 0 <= j < |p| && p[j] == rp[i];
          assert a[j] == p[j] && a[|a| - 1] == e;
          assert a[j].key != a[|a| - 1].key;
        }
      }
    }
  }

  /** The inductive step of `Unset`'s positional postcondition: the removed
      entry is the last one, or it lies in the prefix and `e` follows. */
  lemma UnsetAt(a: seq<Entry>, k: Key, p: seq<Entry>, e: Entry, rp: seq<Entry>)
    requires a == p + [e] && UniqueKeys(a) && UniqueKeys(p) && HasKey(a, k)
    requires !HasKey(p, k) ==> rp == p
    requires HasKey(p, k) ==> rp == p[..IndexOf(p, k)] + p[IndexOf(p, k) + 1..]
    ensures (if e.key == k then rp else rp + [e]) == a[..IndexOf(a, k)] + a[IndexOf(a, k) + 1..]
  {
    if e.key == k {
      assert !HasKey(p, k) by {
        forall i | 0 <= i < |p| ensures p[i].key != k {
          assert p[i].key == a[i].key && a[i].key != a[|a| - 1].key;
        }
      }
      UnsetAtLast(p, e);
    } else {
      assert HasKey(p, k) by {
        var i := IndexOf(a, k);
        assert i != |p|;
        assert p[i].key == k;
      }
      UnsetAtPrefix(p, e, k);
    }
  }

  /** Removing the key only the appended entry holds leaves the prefix. */
  lemma UnsetAtLast(p: seq<Entry>, e: Entry)
    requires !HasKey(p, e.key)
    ensures HasKey(p + [e], e.key)
    ensures p == (p + [e])[..IndexOf(p + [e], e.key)] + (p + [e])[IndexOf(p + [e], e.key) + 1..]
  {
    IndexOfLast(p, e);
    assert (p + [e])[..|p|] == p;
  }

  /** Removing a key of the prefix is removing it there and keeping `e`. */
  lemma UnsetAtPrefix(p: seq<Entry>, e: Entry, k: Key)
    requires HasKey(p, k)
    ensures HasKey(p + [e], k)
    ensures p[..IndexOf(p, k)] + p[IndexOf(p, k) + 1..] + [e]
      == (p + [e])[..IndexOf(p + [e], k)] + (p + [e])[IndexOf(p + [e], k) + 1..]
  {
    IndexOfPrefix(p, e, k);
    var i := IndexOf(p, k);
    assert (p + [e])[..i] == p[..i];
    assert (p + [e])[i + 1..] == p[i + 1..] + [e];
  }

  /** A key of `p` is read at the same place in `p + [e]`. */
  lemma IndexOfPrefix(p: seq<Entry>, e: Entry, k: Key)
    requires HasKey(p, k)
    ensures HasKey(p + [e], k) && IndexOf(p + [e], k) == IndexOf(p, k)
  {
    var i := IndexOf(p, k);
    assert (p + [e])[i].key == k;
    var j := IndexOf(p + [e], k);
    assert j <= i;
    assert p[j].key == k;
  }

  /** A key only the appended entry holds is read at the end. */
  lemma IndexOfLast(p: seq<Entry>, e: Entry)
    requires !HasKey(p, e.key)
    ensures HasKey(p + [e], e.key) && IndexOf(p + [e], e.key) == |p|
  {
    assert (p + [e])[|p|].key == e.key;
    assert forall i :: 0 <= i < |p| ==> (p + [e])[i] == p[i];
  }

  /** At least one key of `a` is an integer. */
  predicate HasIntKey(a: seq<Entry>) {
    exists i :: 0 <= i < |a| && a[i].key.IntKey?
  }

  /** The largest integer key of `a`, if any. */
  function MaxIntKey(a: seq<Entry>): (m: Option<int>)
    ensures m.None? <==> !HasIntKey(a)
    ensures m.Some? ==> HasKey(a, IntKey(m.value))
    ensures m.Some? ==> forall i :: 0 <= i < |a| && a[i].key.IntKey? ==> a[i].key.i <= m.value
  {
    if a == [] then None
    else
      var p := a[..|a| - 1];
      var m := MaxIntKey(p);
      assert forall i :: 0 <= i < |p| ==> p[i] == a[i];
      assert HasIntKey(p) ==> HasIntKey(a);
      match a[|a| - 1].key
      case StrKey(_) =>
        assert HasIntKey(a) ==> HasIntKey(p) by {
          if HasIntKey(a) {
            var i :| 0 <= i < |a| && a[i].key.IntKey?;
            assert i < |p|;
          }
        }
        assert m.Some? ==> HasKey(p, IntKey(m.value)) && HasKey(a, IntKey(m.value));
        m
      case IntKey(n) =>
        if m.Some? && m.value >= n then
          assert HasKey(a, IntKey(m.value)) by {
            var i :| 0 <= i < |p| && p[i].key == IntKey(m.value);
            assert a[i].key == IntKey(m.value);
          }
          m
        else
          assert HasKey(a, IntKey(n));
          Some(n)
  }

  /** The key `$a[] = $v` uses in PHP 7: one past the largest integer key,
      but never below 0, so 0 when there is no non-negative integer key. */
  function NextIndex(a: seq<Entry>): (n: int)
    ensures n >= 0
    ensures forall i :: 0 <= i < |a| && a[i].key.IntKey? ==> a[i].key.i < n
    ensures n > 0 ==> HasKey(a, IntKey(n - 1))
    ensures !HasIntKey(a) ==> n == 0
    ensures !HasKey(a, IntKey(n))
  {
    match MaxIntKey(a)
    case None => 0
    case Some(m) => if m < 0 then 0 else m + 1
  }

  /** `$a[] = $v`: appends `v` under a fresh integer key. */
  function Push(a: seq<Entry>, v: Value): (r: seq<Entry>)
    ensures Keys(r) == Keys(a) + [IntKey(NextIndex(a))]
    ensures r[..|a|] == a && r[|a|].val == v
    ensures Lookup(r, IntKey(NextIndex(a))) == Some(v)
    ensures forall j :: j != IntKey(NextIndex(a)) ==> Lookup(r, j) == Lookup(a, j)
    ensures UniqueKeys(a) ==> UniqueKeys(r)
  {
    var k := IntKey(NextIndex(a));
    var r := a + [Entry(k, v)];
    forall j ensures Lookup(r, j) == if j == k then Some(v) else Lookup(a, j) {
      LookupAppend(a, Entry(k, v), j);
    }
    r
  }

  // ---- The list part of an array ----

  /** The values held under integer keys, in order: what `$a[] = $v` grows. */
  function ListValues(a: seq<Entry>): seq<Value> {
    if a == [] then []
    else ListValues(a[..|a| - 1]) + (if a[|a| - 1].key.IntKey? then [a[|a| - 1].val] else [])
  }

  lemma ListValuesAppend(p: seq<Entry>, e: Entry)
    ensures ListValues(p + [e]) == ListValues(p) + (if e.key.IntKey? then [e.val] else [])
  {
    assert (p + [e])[..|p|] == p;
  }

  /** Replacing a string-keyed entry by another leaves the list part alone. */
  lemma {:induction false} ListValuesUpdate(a: seq<Entry>, i: nat, x: Entry)
    requires i < |a| && a[i].key.StrKey? && x.key.StrKey?
    ensures ListValues(a[i := x]) == ListValues(a)
    decreases |a|
  {
    var p, e := a[..|a| - 1], a[|a| - 1];
    assert a == p + [e];
    ListValuesAppend(p, e);
    if i == |a| - 1 {
      assert a[i := x] == p + [x];
      ListValuesAppend(p, x);
    } else {
      assert a[i := x] == p[i := x] + [e];
      ListValuesUpdate(p, i, x);
      ListValuesAppend(p[i := x], e);
    }
  }

  /** `$a[$k] = $v` on a string key leaves the list part alone; on an absent
      integer key it appends `v` to it. */
  lemma ListValuesSet(a: seq<Entry>, k: Key, v: Value)
    ensures k.StrKey? ==> ListValues(Set(a, k, v)) == ListValues(a)
    ensures !HasKey(a, k) ==> ListValues(Set(a, k, v)) == ListValues(a) + (if k.IntKey? then [v] else [])
  {
    if HasKey(a, k) {
      if k.StrKey? {
        ListValuesUpdate(a, IndexOf(a, k), Entry(k, v));
      }
    } else {
      ListValuesAppend(a, Entry(k, v));
    }
  }

  lemma ListValuesPush(a: seq<Entry>, v: Value)
    ensures ListValues(Push(a, v)) == ListValues(a) + [v]
  {
    ListValuesAppend(a, Entry(IntKey(NextIndex(a)), v));
  }

  /** `unset` of a string key leaves the list part alone. */
  lemma {:induction false} ListValuesUnset(a: seq<Entry>, k: Key)
    requires k.StrKey?
    ensures ListValues(Unset(a, k)) == ListValues(a)
    decreases |a|
  {
    if a != [] {
      var p, e := a[..|a| - 1], a[|a| - 1];
      ListValuesUnset(p, k);
      ListValuesAppend(Unset(p, k), e);
    }
  }

  // ---- A size measure for recursion into nested arrays ----

  function ValueSize(v: Value): nat
  {
    match v
    case Scalar(_) => 1
    case Arr(s) => 1 + PrefixSize(v, |s|)
  }

  /** Size of the first `n` entries of the array `v`. */
  function PrefixSize(v: Value, n: nat): nat
    requires v.Arr? && n <= |v.entries|
    decreases v, n
  {
    if n == 0 then 0 else PrefixSize(v, n - 1) + ValueSize(v.entries[n - 1].val)
  }

  /** Total size of an array's entries, nested arrays included. */
  function Size(a: seq<Entry>): nat {
    PrefixSize(Arr(a), |a|)
  }

  lemma {:induction false} PrefixSizeOfPrefix(a: seq<Entry>, m: nat, n: nat)
    requires n <= m <= |a|
    ensures PrefixSize(Arr(a[..m]), n) == PrefixSize(Arr(a), n)
  {
    if n > 0 {
      PrefixSizeOfPrefix(a, m, n - 1);
      assert a[..m][n - 1] == a[n - 1];
    }
  }

  lemma {:induction false} PrefixSizeMonotone(v: Value, n: nat, m: nat)
    requires v.Arr? && n <= m <= |v.entries|
    ensures PrefixSize(v, n) <= PrefixSize(v, m)
  {
    if n < m {
      PrefixSizeMonotone(v, n, m - 1);
    }
  }

  /** Dropping the last entry of `a` keeps only keys of `a`, and that
      entry's key is one of them. */
  lemma PrefixKeys(a: seq<Entry>)
    requires a != []
    ensures forall j :: HasKey(a[..|a| - 1], j) ==> HasKey(a, j)
    ensures HasKey(a, a[|a| - 1].key)
  {
    forall j | HasKey(a[..|a| - 1], j) ensures HasKey(a, j) {
      var i :| 0 <= i < |a| - 1 && a[..|a| - 1][i].key == j;
      assert a[i].key == j;
    }
  }

  /** Recursing on a shorter prefix, or into the array held by any entry,
      makes the size smaller. */
  lemma SizeDecreases(a: seq<Entry>, i: nat)
    requires i < |a|
    ensures Size(a[..|a| - 1]) < Size(a)
    ensures a[i].val.Arr? ==> Size(a[i].val.entries) < Size(a)
  {
    PrefixSizeOfPrefix(a, |a| - 1, |a| - 1);
    PrefixSizeMonotone(Arr(a), i + 1, |a|);
  }
}
