/**
 The category records, the five seeded defaults, and the next-state
 computations of the four mutators of the category store: append, map over
 the categories with a matching id, and filter.
 */
module Categories {
  import opened Slug

  datatype Category = Category(id: string, name: string, subcategories: seq<string>)

  /** The ids of a category list, in order. */
  function Ids(cs: seq<Category>): (ids: seq<string>)
    ensures |ids| == |cs|
    ensures forall i :: 0 <= i < |cs| ==> ids[i] == cs[i].id
  {
    seq(|cs|, i requires 0 <= i < |cs| => cs[i].id)
  }

  /** No two categories share an id. */
  predicate UniqueIds(cs: seq<Category>) {
    forall i, j :: 0 <= i < j < |cs| ==> cs[i].id != cs[j].id
  }

  /** The categories installed when nothing usable is stored. */
  const DefaultCategories: seq<Category> :=
    [ Category("fixed", "Fixed Expenses", ["Rent/Mortgage", "Electricity", "Water", "Gas", "Internet", "Airtime"]),
      Category("food", "Food", ["Groceries", "Snacks", "Yogurt/Coffee"]),
      Category("transport", "Transport", ["Fuel", "Maintenance", "Parking Fees", "Insurance", "Public Transport"]),
      Category("shopping", "Shopping", ["Clothing", "Beauty", "Home Goods", "Electronics", "Gifts"]),
      Category("fitness", "Fitness", ["Gym Membership", "Supplements", "Sport Equipment", "Wellness Products", "Vitamins"]) ]

  /** The five defaults, in this order, with distinct ids that are already in id shape. */
  lemma DefaultCategoriesShape()
    ensures Ids(DefaultCategories) == ["fixed", "food", "transport", "shopping", "fitness"]
    ensures UniqueIds(DefaultCategories)
    ensures forall i :: 0 <= i < |DefaultCategories| ==> IsSlug(DefaultCategories[i].id)
  {
    var ids := Ids(DefaultCategories);
    assert ids == ["fixed", "food", "transport", "shopping", "fitness"];
  }

  // ---------------------------------------------------------------------------
  // Filtering, as JavaScript's Array.prototype.filter.

  /** How many elements of `s` satisfy `keep`. */
  function Count<T>(s: seq<T>, keep: T -> bool): nat {
    if s == [] then 0 else (if keep(s[0]) then 1 else 0) + Count(s[1..], keep)
  }

  /** `a` is `b` with some elements left out, the rest in their original order. */
  predicate IsSubsequence<T(==)>(a: seq<T>, b: seq<T>)
    decreases |b|
  {
    if a == [] then true
    else if b == [] then false
    else (a[0] == b[0] && IsSubsequence(a[1..], b[1..])) || IsSubsequence(a, b[1..])
  }

  function Filter<T(==)>(s: seq<T>, keep: T -> bool): (r: seq<T>)
    ensures forall x :: x in r ==> x in s && keep(x)
    ensures forall x :: x in s && keep(x) ==> x in r
    ensures |r| == Count(s, keep)
    ensures IsSubsequence(r, s)
  {
    if s == [] then []
    else if keep(s[0]) then [s[0]] + Filter(s[1..], keep)
    else Filter(s[1..], keep)
  }

  lemma {:induction false} FilterAll<T>(s: seq<T>, keep: T -> bool)
    requires forall x :: x in s ==> keep(x)
    ensures Filter(s, keep) == s
  {
    if s != [] {
      FilterAll(s[1..], keep);
    }
  }

  lemma {:induction false} FilterAppend<T>(s: seq<T>, t: seq<T>, keep: T -> bool)
    ensures Filter(s + t, keep) == Filter(s, keep) + Filter(t, keep)
  {
    if s != [] {
      assert (s + t)[0] == s[0] && (s + t)[1..] == s[1..] + t;
      FilterAppend(s[1..], t, keep);
      if keep(s[0]) {
        calc {
          Filter(s + t, keep);
          [s[0]] + Filter(s[1..] + t, keep);
          [s[0]] + (Filter(s[1..], keep) + Filter(t, keep));
          ([s[0]] + Filter(s[1..], keep)) + Filter(t, keep);
        }
      }
    } else {
      assert s + t == t;
    }
  }

  // ---------------------------------------------------------------------------
  // The next-state computations.

  /** `addCategory`: the new category goes last, with the derived id and no subcategories. */
  function AddedCategory(cs: seq<Category>, name: string): (r: seq<Category>)
    ensures |r| == |cs| + 1
    ensures r[..|cs|] == cs
    ensures r[|cs|] == Category(DeriveId(name), name, [])
  {
    cs + [Category(DeriveId(name), name, [])]
  }

  /**
   Every category whose id is `categoryId` gets its subcategories replaced by
   `f` of them; every other category is unchanged.
   */
  function UpdateMatching(cs: seq<Category>, categoryId: string, f: seq<string> -> seq<string>): (r: seq<Category>)
    ensures |r| == |cs|
    ensures forall i :: 0 <= i < |cs| ==> r[i].id == cs[i].id && r[i].name == cs[i].name
    ensures forall i :: 0 <= i < |cs| && cs[i].id == categoryId ==>
              r[i].subcategories == f(cs[i].subcategories)
    ensures forall i :: 0 <= i < |cs| && cs[i].id != categoryId ==> r[i] == cs[i]
  {
    if cs == [] then []
    else
      var c := cs[0];
      var c' := if c.id == categoryId then c.(subcategories := f(c.subcategories)) else c;
      [c'] + UpdateMatching(cs[1..], categoryId, f)
  }

  /** `addSubcategory`: `sub` goes last in every category whose id matches. */
  function AddedSubcategory(cs: seq<Category>, categoryId: string, sub: string): (r: seq<Category>)
    ensures Ids(r) == Ids(cs)
    ensures forall i :: 0 <= i < |cs| ==> r[i].name == cs[i].name
    ensures forall i :: 0 <= i < |cs| && cs[i].id == categoryId ==>
              r[i].subcategories == cs[i].subcategories + [sub]
    ensures forall i :: 0 <= i < |cs| && cs[i].id != categoryId ==> r[i] == cs[i]
  {
    UpdateMatching(cs, categoryId, Appending(sub))
  }

  /** The filter predicate of `removeCategory`. */
  function OtherId(categoryId: string): Category -> bool {
    (c: Category) => c.id != categoryId
  }

  /** `removeCategory`: keeps the categories whose id differs, in their order. */
  function RemovedCategory(cs: seq<Category>, categoryId: string): (r: seq<Category>)
    ensures forall c :: c in r <==> c in cs && c.id != categoryId
    ensures categoryId !in Ids(r)
    ensures IsSubsequence(r, cs)
    ensures |r| == Count(cs, OtherId(categoryId))
  {
    Filter(cs, OtherId(categoryId))
  }

  /** The filter predicate of `removeSubcategory`. */
  function OtherThan(sub: string): string -> bool {
    (x: string) => x != sub
  }

  /** A subcategory list with every occurrence of `sub` taken out. */
  function Without(ss: seq<string>, sub: string): (r: seq<string>)
    ensures forall x :: x in r <==> x in ss && x != sub
    ensures IsSubsequence(r, ss)
    ensures |r| == Count(ss, OtherThan(sub))
  {
    Filter(ss, OtherThan(sub))
  }

  /** The subcategory update of `addSubcategory`. */
  function Appending(sub: string): seq<string> -> seq<string> {
    (ss: seq<string>) => ss + [sub]
  }

  /** The subcategory update of `removeSubcategory`. */
  function Removing(sub: string): seq<string> -> seq<string> {
    (ss: seq<string>) => Without(ss, sub)
  }

  /** `removeSubcategory`: every matching category loses every occurrence of `sub`. */
  function RemovedSubcategory(cs: seq<Category>, categoryId: string, sub: string): (r: seq<Category>)
    ensures Ids(r) == Ids(cs)
    ensures forall i :: 0 <= i < |cs| ==> r[i].name == cs[i].name
    ensures forall i :: 0 <= i < |cs| && cs[i].id == categoryId ==>
              r[i].subcategories == Without(cs[i].subcategories, sub)
    ensures forall i :: 0 <= i < |cs| && cs[i].id != categoryId ==> r[i] == cs[i]
  {
    UpdateMatching(cs, categoryId, Removing(sub))
  }

  // ---------------------------------------------------------------------------
  // What the results are, and how the operations relate.

  lemma {:induction false} SubsequenceCount<T>(a: seq<T>, s: seq<T>, keep: T -> bool)
    requires IsSubsequence(a, s)
    requires forall x :: x in a ==> keep(x)
    ensures |a| <= Count(s, keep)
    decreases |s|
  {
    if a != [] && s != [] {
      if a[0] == s[0] && IsSubsequence(a[1..], s[1..]) {
        SubsequenceCount(a[1..], s[1..], keep);
      } else {
        SubsequenceCount(a, s[1..], keep);
      }
    }
  }

  /**
   `Filter(s, keep)` is the one subsequence of `s` that holds only kept
   elements and as many as `s` has.
   */
  lemma {:induction false} FilterExactly<T>(a: seq<T>, s: seq<T>, keep: T -> bool)
    ensures a == Filter(s, keep) <==>
              IsSubsequence(a, s) && (forall x :: x in a ==> keep(x)) && |a| == Count(s, keep)
    decreases |s|
  {
    if IsSubsequence(a, s) && (forall x :: x in a ==> keep(x)) && |a| == Count(s, keep) {
      if a != [] {
        assert s != [];
        assert a[0] in a;
        var tail := a[1..];
        assert forall x :: x in tail ==> x in a;
        if keep(s[0]) {
          if !(a[0] == s[0] && IsSubsequence(tail, s[1..])) {
            SubsequenceCount(a, s[1..], keep);
            assert false;
          }
          FilterExactly(tail, s[1..], keep);
          assert a == [a[0]] + tail;
        } else {
          assert a[0] != s[0];
          FilterExactly(a, s[1..], keep);
        }
      }
    }
  }

  /** `removeCategory` returns exactly the categories with another id, in order. */
  lemma RemovedCategoryExactly(cs: seq<Category>, categoryId: string, r: seq<Category>)
    ensures r == RemovedCategory(cs, categoryId) <==>
              IsSubsequence(r, cs) && (forall c :: c in r ==> c.id != categoryId) &&
              |r| == Count(cs, OtherId(categoryId))
  {
    FilterExactly(r, cs, OtherId(categoryId));
  }

  /** `removeSubcategory` leaves exactly the other subcategories, in order. */
  lemma WithoutExactly(ss: seq<string>, sub: string, r: seq<string>)
    ensures r == Without(ss, sub) <==>
              IsSubsequence(r, ss) && sub !in r && |r| == Count(ss, OtherThan(sub))
  {
    FilterExactly(r, ss, OtherThan(sub));
  }

  /** A subsequence only holds elements of the original. */
  lemma {:induction false} SubsequenceMembers<T>(a: seq<T>, s: seq<T>)
    requires IsSubsequence(a, s)
    ensures forall x :: x in a ==> x in s
    decreases |s|
  {
    if a != [] {
      if a[0] == s[0] && IsSubsequence(a[1..], s[1..]) {
        SubsequenceMembers(a[1..], s[1..]);
        assert forall x :: x in a ==> x == a[0] || x in a[1..];
      } else {
        SubsequenceMembers(a, s[1..]);
      }
    }
  }

  /** Leaving categories out cannot create an id collision. */
  lemma {:induction false} SubsequenceUniqueIds(a: seq<Category>, s: seq<Category>)
    requires IsSubsequence(a, s) && UniqueIds(s)
    ensures UniqueIds(a)
    decreases |s|
  {
    if a != [] {
      assert UniqueIds(s[1..]) by {
        forall i, j | 0 <= i < j < |s| - 1 ensures s[1..][i].id != s[1..][j].id {
          assert s[1..][i] == s[i + 1] && s[1..][j] == s[j + 1];
        }
      }
      if a[0] == s[0] && IsSubsequence(a[1..], s[1..]) {
        SubsequenceUniqueIds(a[1..], s[1..]);
        SubsequenceMembers(a[1..], s[1..]);
        forall j | 0 < j < |a| ensures a[0].id != a[j].id {
          assert a[j] in a[1..];
          var k :| 0 <= k < |s| - 1 && s[1..][k] == a[j];
          assert s[k + 1] == a[j];
        }
      } else {
        SubsequenceUniqueIds(a, s[1..]);
      }
    }
  }

  /**
   `addCategory` keeps ids unique exactly when the derived id is new: it never
   refuses a colliding name, so the two entries then share an id.
   */
  lemma AddedCategoryUniqueIds(cs: seq<Category>, name: string)
    ensures UniqueIds(AddedCategory(cs, name)) <==> UniqueIds(cs) && DeriveId(name) !in Ids(cs)
  {
    var r := AddedCategory(cs, name);
    if UniqueIds(r) {
      forall i, j | 0 <= i < j < |cs| ensures cs[i].id != cs[j].id {
        assert r[i] == cs[i] && r[j] == cs[j];
      }
    }
  }

  /** The other three mutators never create an id collision. */
  lemma MutatorsKeepUniqueIds(cs: seq<Category>, categoryId: string, sub: string)
    requires UniqueIds(cs)
    ensures UniqueIds(AddedSubcategory(cs, categoryId, sub))
    ensures UniqueIds(RemovedCategory(cs, categoryId))
    ensures UniqueIds(RemovedSubcategory(cs, categoryId, sub))
  {
    SubsequenceUniqueIds(RemovedCategory(cs, categoryId), cs);
    var a := AddedSubcategory(cs, categoryId, sub);
    var b := RemovedSubcategory(cs, categoryId, sub);
    assert forall i :: 0 <= i < |cs| ==> a[i].id == Ids(a)[i] == Ids(cs)[i] == cs[i].id;
    assert forall i :: 0 <= i < |cs| ==> b[i].id == Ids(b)[i] == Ids(cs)[i] == cs[i].id;
  }

  /** With no category of that id, the map leaves the list as it was (it is still persisted). */
  lemma NoMatchUnchanged(cs: seq<Category>, categoryId: string, sub: string)
    requires categoryId !in Ids(cs)
    ensures AddedSubcategory(cs, categoryId, sub) == cs
    ensures RemovedSubcategory(cs, categoryId, sub) == cs
    ensures RemovedCategory(cs, categoryId) == cs
  {
    assert forall i :: 0 <= i < |cs| ==> cs[i].id == Ids(cs)[i];
    FilterAll(cs, OtherId(categoryId));
  }

  /** Two additions to one category keep their order. */
  lemma AddedSubcategoriesInOrder(cs: seq<Category>, categoryId: string, a: string, b: string, i: nat)
    requires i < |cs| && cs[i].id == categoryId
    ensures AddedSubcategory(AddedSubcategory(cs, categoryId, a), categoryId, b)[i].subcategories
            == cs[i].subcategories + [a, b]
  {
    var once := AddedSubcategory(cs, categoryId, a);
    assert once[i].id == Ids(once)[i] == Ids(cs)[i] == categoryId;
  }

  /** Adding a category and then removing its id leaves what removing the id alone leaves. */
  lemma RemovedCategoryAfterAdded(cs: seq<Category>, name: string)
    ensures RemovedCategory(AddedCategory(cs, name), DeriveId(name)) == RemovedCategory(cs, DeriveId(name))
  {
    var keep := OtherId(DeriveId(name));
    var added := [Category(DeriveId(name), name, [])];
    FilterAppend(cs, added, keep);
    assert Filter(added, keep) == [];
  }

  /** Removing a category also discards every subcategory added to it. */
  lemma {:induction false} RemovedCategoryAfterUpdate(cs: seq<Category>, categoryId: string, f: seq<string> -> seq<string>)
    ensures Filter(UpdateMatching(cs, categoryId, f), OtherId(categoryId)) == Filter(cs, OtherId(categoryId))
  {
    if cs != [] {
      RemovedCategoryAfterUpdate(cs[1..], categoryId, f);
    }
  }

  lemma RemovedCategoryAfterAddedSubcategory(cs: seq<Category>, categoryId: string, sub: string)
    ensures RemovedCategory(AddedSubcategory(cs, categoryId, sub), categoryId) == RemovedCategory(cs, categoryId)
  {
    RemovedCategoryAfterUpdate(cs, categoryId, Appending(sub));
  }

  /** Removing a subcategory undoes adding it (and removes its earlier copies too). */
  lemma RemovedSubcategoryAfterAdded(cs: seq<Category>, categoryId: string, sub: string)
    ensures RemovedSubcategory(AddedSubcategory(cs, categoryId, sub), categoryId, sub)
            == RemovedSubcategory(cs, categoryId, sub)
  {
    var added := AddedSubcategory(cs, categoryId, sub);
    var r := RemovedSubcategory(added, categoryId, sub);
    var q := RemovedSubcategory(cs, categoryId, sub);
    forall i | 0 <= i < |cs| ensures r[i] == q[i] {
      assert added[i].id == Ids(added)[i] == Ids(cs)[i] == cs[i].id;
      assert r[i].id == Ids(r)[i] == Ids(added)[i];
      assert q[i].id == Ids(q)[i] == Ids(cs)[i];
      if cs[i].id == categoryId {
        FilterAppend(cs[i].subcategories, [sub], OtherThan(sub));
        assert Filter([sub], OtherThan(sub)) == [];
      }
    }
  }

  /** Removing twice is removing once. */
  lemma RemovalsIdempotent(cs: seq<Category>, categoryId: string, sub: string)
    ensures RemovedCategory(RemovedCategory(cs, categoryId), categoryId) == RemovedCategory(cs, categoryId)
    ensures RemovedSubcategory(RemovedSubcategory(cs, categoryId, sub), categoryId, sub)
            == RemovedSubcategory(cs, categoryId, sub)
  {
    FilterAll(RemovedCategory(cs, categoryId), OtherId(categoryId));
    var once := RemovedSubcategory(cs, categoryId, sub);
    var twice := RemovedSubcategory(once, categoryId, sub);
    forall i | 0 <= i < |cs| ensures twice[i] == once[i] {
      assert once[i].id == Ids(once)[i] == Ids(cs)[i] == cs[i].id;
      assert twice[i].id == Ids(twice)[i] == Ids(once)[i];
      if cs[i].id == categoryId {
        FilterAll(once[i].subcategories, OtherThan(sub));
      }
    }
  }
}
