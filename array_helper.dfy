/** The three steps of the session conflict resolver (ArrayHelper.php).

    Each PHP function walks one array with `foreach`, building its result with
    `$r[$k] = …`, `$r[] = …` and `unset`, and recursing into nested arrays. Each
    is modelled twice: a function that folds the same step over a prefix of the
    walked array (`Diff`, `Overlay`, `Prune`; it is the specification), and a
    method with the loop itself, proved equal to it. PHP arrays are values, so
    the methods change nothing outside their own locals. */
module ArrayHelper {
  import opened PhpArray

  /** `arrayRecursiveDiff($a, $b)`: the entries of `a` that `b` does not hold.
      A key missing from `b` is kept with its value; a nested array is diffed
      recursively and kept only when that diff is non-empty; any other value is
      kept when it differs from `b`'s. A non-array `$b[$key]` behaves as [] (an
      object included, where PHP 7 would look up its properties and fail).
      Values are compared strictly; for objects, where the source uses the loose
      `!=`, that means by class and serialized state. */
  function Diff(a: seq<Entry>, b: seq<Entry>): (r: seq<Entry>)
    ensures forall k :: HasKey(r, k) ==> HasKey(a, k)
    ensures UniqueKeys(r)
    decreases Size(a)
  {
    if a == [] then []
    else
      SizeDecreases(a, |a| - 1);
      var p := a[..|a| - 1];
      var acc := Diff(p, b);
      var Entry(k, v) := a[|a| - 1];
      PrefixKeys(a);
      if HasKey(b, k) then
        if v.Arr? then
          var d := Diff(v.entries, AsArray(Get(b, k)));
          if |d| > 0 then Set(acc, k, Arr(d)) else acc
        else if v != Get(b, k) then Set(acc, k, v)
        else acc
      else Set(acc, k, v)
  }

  /** `merge($a, $b)` (the Yii2 overlay): walks `b`; an integer key already
      present in the result is appended under the next free integer key, an
      absent one is set; a string key whose old and new values are both arrays
      is merged recursively, any other string key is overwritten. */
  function Overlay(a: seq<Entry>, b: seq<Entry>): (r: seq<Entry>)
    ensures Keys(a) <= Keys(r)
    ensures UniqueKeys(a) ==> UniqueKeys(r)
    decreases Size(b)
  {
    if b == [] then a
    else
      SizeDecreases(b, |b| - 1);
      var acc := Overlay(a, b[..|b| - 1]);
      var Entry(k, v) := b[|b| - 1];
      var r :=
        if k.IntKey? then
          if HasKey(acc, k) then Push(acc, v) else Set(acc, k, v)
        else if v.Arr? && HasKey(acc, k) && Get(acc, k).Arr? then
          Set(acc, k, Arr(Overlay(Get(acc, k).entries, v.entries)))
        else Set(acc, k, v);
      assert Keys(acc) <= Keys(r);
      r
  }

  /** `arrayRemovedRecursiveDiff($a, $b, $c)`: deletes from `a` the keys that
      `b` holds with a non-array value and `c` lacks; where `b` holds an array
      and `a` has the key, recurses into it with `$c[$key]` (a missing or
      non-array `$c[$key]` behaves as [], an object included). A non-array `a` comes back unchanged. */
  function Prune(a: Value, b: seq<Entry>, c: seq<Entry>): (r: Value)
    ensures a.Scalar? ==> r == a
    ensures a.Arr? ==> r.Arr? && forall k :: HasKey(r.entries, k) ==> HasKey(a.entries, k)
    ensures a.Arr? && UniqueKeys(a.entries) ==> UniqueKeys(r.entries)
    decreases Size(b)
  {
    if b == [] then a
    else
      SizeDecreases(b, |b| - 1);
      var acc := Prune(a, b[..|b| - 1], c);
      var Entry(k, v) := b[|b| - 1];
      if v.Arr? then
        if acc.Arr? && HasKey(acc.entries, k) then
          Arr(Set(acc.entries, k, Prune(Get(acc.entries, k), v.entries, SubArray(c, k))))
        else acc
      else if !HasKey(c, k) && acc.Arr? then Arr(Unset(acc.entries, k))
      else acc
  }

  /** `Diff` over one more entry of `a`: the loop body of arrayRecursiveDiff
      applied to the diff so far. */
  lemma DiffStep(a: seq<Entry>, b: seq<Entry>, i: nat)
    requires i < |a|
    ensures var acc, k, v := Diff(a[..i], b), a[i].key, a[i].val;
      Diff(a[..i + 1], b) ==
        if HasKey(b, k) then
          if v.Arr? then
            var d := Diff(v.entries, AsArray(Get(b, k)));
            if |d| > 0 then Set(acc, k, Arr(d)) else acc
          else if v != Get(b, k) then Set(acc, k, v)
          else acc
        else Set(acc, k, v)
  {
    assert a[..i + 1][..i] == a[..i];
  }

  /** The loop of ArrayHelper::arrayRecursiveDiff. */
  method ArrayRecursiveDiff(a: seq<Entry>, b: seq<Entry>) returns (result: seq<Entry>)
    ensures result == Diff(a, b)
    decreases Size(a)
  {
    result := [];
    var i := 0;
    while i < |a|
      invariant 0 <= i <= |a|
      invariant result == Diff(a[..i], b)
    {
      var Entry(key, value) := a[i];
      if HasKey(b, key) {
        if value.Arr? {
          SizeDecreases(a, i);
          var sub := ArrayRecursiveDiff(value.entries, AsArray(Get(b, key)));
          if |sub| > 0 {
            result := Set(result, key, Arr(sub));
          }
        } else if value != Get(b, key) {
          result := Set(result, key, value);
        }
      } else {
        result := Set(result, key, value);
      }
      DiffStep(a, b, i);
      i := i + 1;
    }
    assert a[..|a|] == a;
  }

  /** The loop of ArrayHelper::merge, called with two arrays as the session
      code does. */
  method Merge(a: seq<Entry>, b: seq<Entry>) returns (res: seq<Entry>)
    ensures res == Overlay(a, b)
    decreases Size(b)
  {
    res := a;
    var i := 0;
    while i < |b|
      invariant 0 <= i <= |b|
      invariant res == Overlay(a, b[..i])
    {
      var Entry(k, v) := b[i];
      if k.IntKey? {
        if HasKey(res, k) {
          res := Push(res, v);
        } else {
          res := Set(res, k, v);
        }
      } else if v.Arr? && HasKey(res, k) && Get(res, k).Arr? {
        SizeDecreases(b, i);
        var sub := Merge(Get(res, k).entries, v.entries);
        res := Set(res, k, Arr(sub));
      } else {
        res := Set(res, k, v);
      }
      assert b[..i + 1][..i] == b[..i];
      i := i + 1;
    }
    assert b[..|b|] == b;
  }

  /** The loop of ArrayHelper::arrayRemovedRecursiveDiff. */
  method ArrayRemovedRecursiveDiff(a: Value, b: seq<Entry>, c: seq<Entry>) returns (result: Value)
    ensures result == Prune(a, b, c)
    decreases Size(b)
  {
    result := a;
    var i := 0;
    while i < |b|
      invariant 0 <= i <= |b|
      invariant result == Prune(a, b[..i], c)
    {
      var Entry(key, value) := b[i];
      if value.Arr? {
        if result.Arr? && HasKey(result.entries, key) {
          SizeDecreases(b, i);
          var sub := ArrayRemovedRecursiveDiff(Get(result.entries, key), value.entries, SubArray(c, key));
          result := Arr(Set(result.entries, key, sub));
        }
      } else if !HasKey(c, key) && result.Arr? {
        result := Arr(Unset(result.entries, key));
      }
      assert b[..i + 1][..i] == b[..i];
      i := i + 1;
    }
    assert b[..|b|] == b;
  }
}
