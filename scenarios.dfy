/** Concrete sessions worked through the conflict resolver of getDataForSave
    (DbHttpSession.php:261-279): two requests share one session, the first
    writes while the second still holds the copy it read. */
module Scenarios {
  import opened PhpArray
  import opened ArrayHelper
  import opened ConflictResolver

  function I(n: int): Value { Scalar(Int(n)) }

  /** A key the writer deleted is deleted from the stored session, even though
      the re-read row still holds it. */
  lemma Deletion()
    ensures Resolve([Entry(StrKey("a"), I(1)), Entry(StrKey("b"), I(2))],
                    [Entry(StrKey("a"), I(1))],
                    [Entry(StrKey("a"), I(1)), Entry(StrKey("b"), I(2))])
         == [Entry(StrKey("a"), I(1))]
  {
    var a, b := Entry(StrKey("a"), I(1)), Entry(StrKey("b"), I(2));
    var init, final := [a, b], [a];
    assert init[0].key == StrKey("a");
    assert Diff(final, init) == [];
    assert !HasKey(final, StrKey("b"));
    assert final[0].key == StrKey("a");
    assert Prune(Arr(init), init[..1], final) == Arr(init);
    assert [a, b][..1] == [a];
  }

  /** One request changes `a` from 1 to 9 while another adds `b`: both
      changes are kept. */
  lemma BothWritersKept()
    ensures Resolve([Entry(StrKey("a"), I(1))],
                    [Entry(StrKey("a"), I(9))],
                    [Entry(StrKey("a"), I(1)), Entry(StrKey("b"), I(2))])
         == [Entry(StrKey("a"), I(9)), Entry(StrKey("b"), I(2))]
  {
    ChangedScalarDiff();
    ChangedScalarMerge();
    ChangedScalarPrune();
  }

  lemma ChangedScalarDiff()
    ensures Diff([Entry(StrKey("a"), I(9))], [Entry(StrKey("a"), I(1))]) == [Entry(StrKey("a"), I(9))]
  {
    assert [Entry(StrKey("a"), I(1))][0].key == StrKey("a");
  }

  lemma ChangedScalarMerge()
    ensures Overlay([Entry(StrKey("a"), I(1)), Entry(StrKey("b"), I(2))], [Entry(StrKey("a"), I(9))])
         == [Entry(StrKey("a"), I(9)), Entry(StrKey("b"), I(2))]
  {
    assert [Entry(StrKey("a"), I(1)), Entry(StrKey("b"), I(2))][0].key == StrKey("a");
  }

  lemma ChangedScalarPrune()
    ensures Prune(Arr([Entry(StrKey("a"), I(9)), Entry(StrKey("b"), I(2))]),
                  [Entry(StrKey("a"), I(1))], [Entry(StrKey("a"), I(9))])
         == Arr([Entry(StrKey("a"), I(9)), Entry(StrKey("b"), I(2))])
  {
    assert [Entry(StrKey("a"), I(9))][0].key == StrKey("a");
  }

  /** Two requests each pushed onto a list that was empty when they read it:
      the second writer's element lands after the first one's, under the next
      free index. */
  lemma ListAppend()
    ensures Resolve([], [Entry(IntKey(0), I(7))], [Entry(IntKey(0), I(8))])
         == [Entry(IntKey(0), I(8)), Entry(IntKey(1), I(7))]
  {
    DiffOfNewList();
    MergeLists();
  }

  lemma DiffOfNewList()
    ensures Diff([Entry(IntKey(0), I(7))], []) == [Entry(IntKey(0), I(7))]
  {}

  lemma MergeLists()
    ensures Overlay([Entry(IntKey(0), I(8))], [Entry(IntKey(0), I(7))])
         == [Entry(IntKey(0), I(8)), Entry(IntKey(1), I(7))]
  {
    assert [Entry(IntKey(0), I(8))][0].key == IntKey(0);
    assert NextIndex([Entry(IntKey(0), I(8))]) == 1;
  }

  /** The same race one level down, in a list stored under a string key: the
      nested arrays are merged recursively and both elements survive. */
  lemma NestedListAppend()
    ensures Resolve([Entry(StrKey("cart"), Arr([]))],
                    [Entry(StrKey("cart"), Arr([Entry(IntKey(0), I(7))]))],
                    [Entry(StrKey("cart"), Arr([Entry(IntKey(0), I(8))]))])
         == [Entry(StrKey("cart"), Arr([Entry(IntKey(0), I(8)), Entry(IntKey(1), I(7))]))]
  {
    NestedDiff();
    NestedMerge();
    NestedPrune();
  }

  lemma NestedDiff()
    ensures Diff([Entry(StrKey("cart"), Arr([Entry(IntKey(0), I(7))]))], [Entry(StrKey("cart"), Arr([]))])
         == [Entry(StrKey("cart"), Arr([Entry(IntKey(0), I(7))]))]
  {
    DiffOfNewList();
    assert [Entry(StrKey("cart"), Arr([]))][0].key == StrKey("cart");
  }

  lemma NestedMerge()
    ensures Overlay([Entry(StrKey("cart"), Arr([Entry(IntKey(0), I(8))]))],
                    [Entry(StrKey("cart"), Arr([Entry(IntKey(0), I(7))]))])
         == [Entry(StrKey("cart"), Arr([Entry(IntKey(0), I(8)), Entry(IntKey(1), I(7))]))]
  {
    MergeLists();
    assert [Entry(StrKey("cart"), Arr([Entry(IntKey(0), I(8))]))][0].key == StrKey("cart");
  }

  lemma NestedPrune()
    ensures Prune(Arr([Entry(StrKey("cart"), Arr([Entry(IntKey(0), I(8)), Entry(IntKey(1), I(7))]))]),
                  [Entry(StrKey("cart"), Arr([]))],
                  [Entry(StrKey("cart"), Arr([Entry(IntKey(0), I(7))]))])
         == Arr([Entry(StrKey("cart"), Arr([Entry(IntKey(0), I(8)), Entry(IntKey(1), I(7))]))])
  {
    assert [Entry(StrKey("cart"), Arr([Entry(IntKey(0), I(8)), Entry(IntKey(1), I(7))]))][0].key == StrKey("cart");
  }

  /** getDataForSave promises to replace only the modified fields
      (DbHttpSession.php:251-252), yet a session variable changed from 5 to []
      is not seen as modified: the diff recurses whenever the new value is an
      array and drops the empty recursive result, so the re-read 5 is stored.
      `CorrectedDiff.EmptyArrayEditKept` is the same race with the corrected
      diff. */
  lemma EmptyArrayEditLost()
    ensures Diff([Entry(StrKey("k"), Arr([]))], [Entry(StrKey("k"), I(5))]) == []
    ensures Resolve([Entry(StrKey("k"), I(5))], [Entry(StrKey("k"), Arr([]))], [Entry(StrKey("k"), I(5))])
         == [Entry(StrKey("k"), I(5))]
  {
    var e := Entry(StrKey("k"), I(5));
    assert [e][0].key == StrKey("k");
    assert [Entry(StrKey("k"), Arr([]))][0].key == StrKey("k");
    assert Prune(Arr([e]), [e], [Entry(StrKey("k"), Arr([]))]) == Arr([e]);
  }
}
