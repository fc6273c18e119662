/** The pure parts of RecipeListController: the category choices, the
    filter and dedupe applied after a search, and the text forms of the
    ingredient and instruction lists in the recipe dialog. */
module RecipeListScreen {
  import opened Common
  import opened Seqs
  import opened Text
  import opened IngredientModel
  import opened RecipeModel
  import opened RecipeTables
  import opened RecipeService
  import RecipeDao

  const AllOption := "All"
  const DessertOption := "Dessert"

  // ---------------------------------------------------------------------
  // populateCategoryFilter
  // ---------------------------------------------------------------------

  /** A recipe category the list takes: non-null and not empty after trim. */
  predicate Listed(c: Option<string>) {
    c.Some? && !TrimsToEmpty(c.value)
  }

  /** `c` is the listed category of some recipe in `rs`. */
  predicate CategoryOf(rs: seq<Recipe>, c: string) {
    exists x :: x in rs && x.category == Some(c) && Listed(x.category)
  }

  /** `map(Recipe::getCategory).filter(non-null and non-blank)` */
  function RecipeCategories(rs: seq<Recipe>): (cs: seq<string>)
    ensures forall c :: c in cs <==> CategoryOf(rs, c)
  {
    if |rs| == 0 then []
    else
      var rest := RecipeCategories(rs[1..]);
      assert forall x :: x in rs <==> x == rs[0] || x in rs[1..];
      if Listed(rs[0].category) then [rs[0].category.value] + rest else rest
  }

  /** `distinct()` on strings: first occurrences, in order. */
  function DistinctStrings(xs: seq<string>): (r: seq<string>)
    ensures forall c :: c in r <==> c in xs
    ensures forall i, j :: 0 <= i < j < |r| ==> r[i] != r[j]
    decreases |xs|
  {
    if |xs| == 0 then []
    else
      var init := xs[..|xs| - 1];
      var last := xs[|xs| - 1];
      assert xs == init + [last];
      var r := DistinctStrings(init);
      if last in r then r else r + [last]
  }

  /** Ascending in String.compareTo order, with no repeats. */
  predicate StrictlySorted(s: seq<string>) {
    forall i, j :: 0 <= i < j < |s| ==> StrLess(s[i], s[j])
  }

  lemma SortedCons(h: string, tail: seq<string>)
    requires StrictlySorted(tail)
    requires |tail| > 0 ==> StrLess(h, tail[0])
    ensures StrictlySorted([h] + tail)
  {
    var s := [h] + tail;
    forall i, j | 0 <= i < j < |s| ensures StrLess(s[i], s[j]) {
      if i == 0 && j > 1 {
        StrLessTransitive(h, tail[0], tail[j - 1]);
      }
    }
  }

  /** A subsequence of a sorted list is sorted. */
  lemma {:induction false} SubseqSorted(a: seq<string>, b: seq<string>)
    requires IsSubseq(a, b) && StrictlySorted(b)
    ensures StrictlySorted(a)
    decreases |b|
  {
    if |a| > 0 {
      assert StrictlySorted(b[1..]) by {
        forall i, j | 0 <= i < j < |b[1..]| ensures StrLess(b[1..][i], b[1..][j]) {
          assert b[1..][i] == b[i + 1] && b[1..][j] == b[j + 1];
        }
      }
      if a[0] == b[0] && IsSubseq(a[1..], b[1..]) {
        SubseqSorted(a[1..], b[1..]);
        if |a| > 1 {
          SubseqMembers(a[1..], b[1..]);
          assert a[1..][0] in b[1..];
          var k :| 0 <= k < |b[1..]| && b[1..][k] == a[1];
          assert b[k + 1] == a[1];
        }
        SortedCons(a[0], a[1..]);
        assert a == [a[0]] + a[1..];
      } else {
        SubseqSorted(a, b[1..]);
      }
    }
  }

  /** One insertion step of the sort. */
  function InsertSorted(x: string, s: seq<string>): (r: seq<string>)
    requires StrictlySorted(s) && x !in s
    ensures StrictlySorted(r)
    ensures |r| == |s| + 1
    ensures forall y :: y in r <==> y == x || y in s
    decreases |s|
  {
    if |s| == 0 then [x]
    else if StrLess(s[0], x) then
      assert StrictlySorted(s[1..]) by {
        forall i, j | 0 <= i < j < |s[1..]| ensures StrLess(s[1..][i], s[1..][j]) {
          assert s[1..][i] == s[i + 1] && s[1..][j] == s[j + 1];
        }
      }
      assert forall y :: y in s <==> y == s[0] || y in s[1..] by {
        assert s == [s[0]] + s[1..];
      }
      var rest := InsertSorted(x, s[1..]);
      assert |rest| > 0 ==> StrLess(s[0], rest[0]) by {
        if |rest| > 0 {
          assert rest[0] in rest;
          if rest[0] != x {
            var k :| 0 <= k < |s[1..]| && s[1..][k] == rest[0];
            assert s[k + 1] == rest[0];
          }
        }
      }
      SortedCons(s[0], rest);
      [s[0]] + rest
    else
      assert x != s[0] by {
        assert s[0] in s;
      }
      StrLessTotal(x, s[0]);
      SortedCons(x, s);
      [x] + s
  }

  /** `sorted()` on a list without repeats. */
  function SortStrings(xs: seq<string>): (r: seq<string>)
    requires forall i, j :: 0 <= i < j < |xs| ==> xs[i] != xs[j]
    ensures StrictlySorted(r)
    ensures |r| == |xs|
    ensures forall c :: c in r <==> c in xs
    decreases |xs|
  {
    if |xs| == 0 then []
    else
      assert forall i, j :: 0 <= i < j < |xs[1..]| ==> xs[1..][i] != xs[1..][j] by {
        forall i, j | 0 <= i < j < |xs[1..]| ensures xs[1..][i] != xs[1..][j] {
          assert xs[1..][i] == xs[i + 1] && xs[1..][j] == xs[j + 1];
        }
      }
      assert xs[0] !in xs[1..] by {
        forall k | 0 <= k < |xs[1..]| ensures xs[1..][k] != xs[0] {
          assert xs[1..][k] == xs[k + 1];
        }
      }
      assert forall c :: c in xs <==> c == xs[0] || c in xs[1..] by {
        assert xs == [xs[0]] + xs[1..];
      }
      InsertSorted(xs[0], SortStrings(xs[1..]))
  }

  /** The recipes' categories, distinct and sorted. */
  function SortedCategories(rs: seq<Recipe>): (cs: seq<string>)
    ensures StrictlySorted(cs)
    ensures forall c :: c in cs <==> CategoryOf(rs, c)
  {
    SortStrings(DistinctStrings(RecipeCategories(rs)))
  }

  /** No recipe category is "Dessert" ignoring case, so the list adds it. */
  predicate DessertAdded(rs: seq<Recipe>) {
    !exists x :: x in rs && Listed(x.category) && EqualsIgnoreCase(x.category.value, DessertOption)
  }

  function IsNotAll(): string -> bool {
    (c: string) => !EqualsIgnoreCase(c, AllOption)
  }

  /** A string equal to "Dessert" ignoring case is not "All" ignoring case. */
  lemma DessertIsNotAll(c: string)
    requires EqualsIgnoreCase(c, DessertOption)
    ensures !EqualsIgnoreCase(c, AllOption)
  {
    assert |Lower(c)| == |Lower(DessertOption)| == 7;
    assert |Lower(AllOption)| == 3;
  }

  /** The recipe categories with "Dessert" appended when none of them is
      Dessert ignoring case. */
  function WithDessert(cats: seq<string>): seq<string> {
    if exists c :: c in cats && EqualsIgnoreCase(c, DessertOption) then cats else cats + [DessertOption]
  }

  /** `populateCategoryFilter()`: "All" first, then the distinct sorted
      non-blank categories of the recipes, then "Dessert" if no category is
      Dessert ignoring case; entries equal to "All" ignoring case are removed
      before "All" is put in front. */
  function CategoryOptions(rs: seq<Recipe>): (r: seq<string>)
    ensures |r| >= 1 && r[0] == AllOption
    ensures forall i :: 1 <= i < |r| ==> !EqualsIgnoreCase(r[i], AllOption)
  {
    var kept := Keep(WithDessert(SortedCategories(rs)), IsNotAll());
    KeptNotAll(kept, WithDessert(SortedCategories(rs)));
    [AllOption] + kept
  }

  lemma KeptNotAll(kept: seq<string>, xs: seq<string>)
    requires kept == Keep(xs, IsNotAll())
    ensures forall i :: 0 <= i < |kept| ==> !EqualsIgnoreCase(kept[i], AllOption)
  {
    forall i | 0 <= i < |kept| ensures !EqualsIgnoreCase(kept[i], AllOption) {
      assert kept[i] in kept;
    }
  }

  /** The Dessert test on the sorted list agrees with the one on the recipes. */
  lemma DessertAddedIff(rs: seq<Recipe>)
    ensures (exists c :: c in SortedCategories(rs) && EqualsIgnoreCase(c, DessertOption)) <==> !DessertAdded(rs)
  {
    var cats := SortedCategories(rs);
    if exists c :: c in cats && EqualsIgnoreCase(c, DessertOption) {
      var c :| c in cats && EqualsIgnoreCase(c, DessertOption);
      assert CategoryOf(rs, c);
    }
    if !DessertAdded(rs) {
      var x :| x in rs && Listed(x.category) && EqualsIgnoreCase(x.category.value, DessertOption);
      assert CategoryOf(rs, x.category.value);
    }
  }

  /** The choices after "All": the recipes' listed categories and, when it
      was added, "Dessert", none of them "All" ignoring case. */
  lemma CategoryOptionsMembers(rs: seq<Recipe>)
    ensures forall c :: c in CategoryOptions(rs)[1..] <==>
              !EqualsIgnoreCase(c, AllOption) && (CategoryOf(rs, c) || (c == DessertOption && DessertAdded(rs)))
  {
    DessertAddedIff(rs);
    DessertIsNotAll(DessertOption);
    assert CategoryOptions(rs)[1..] == Keep(WithDessert(SortedCategories(rs)), IsNotAll());
  }

  /** The list always offers Dessert, ignoring case. */
  lemma CategoryOptionsHaveDessert(rs: seq<Recipe>)
    ensures exists c :: c in CategoryOptions(rs)[1..] && EqualsIgnoreCase(c, DessertOption)
  {
    var cats := SortedCategories(rs);
    CategoryOptionsMembers(rs);
    DessertAddedIff(rs);
    if DessertAdded(rs) {
      assert EqualsIgnoreCase(DessertOption, DessertOption);
      DessertIsNotAll(DessertOption);
      assert DessertOption in CategoryOptions(rs)[1..];
    } else {
      var c :| c in cats && EqualsIgnoreCase(c, DessertOption);
      DessertIsNotAll(c);
      assert c in CategoryOptions(rs)[1..];
    }
  }

  /** The recipes' categories come sorted and without repeats, followed by
      "Dessert" when it was added. */
  lemma CategoryOptionsSorted(rs: seq<Recipe>)
    ensures var r := CategoryOptions(rs);
            && (DessertAdded(rs) ==> |r| >= 2 && r[|r| - 1] == DessertOption && StrictlySorted(r[1..|r| - 1]))
            && (!DessertAdded(rs) ==> StrictlySorted(r[1..]))
  {
    WithDessertOf(rs);
    OptionsSorted(SortedCategories(rs), DessertAdded(rs));
  }

  /** "Dessert" is appended exactly when DessertAdded says so. */
  lemma WithDessertOf(rs: seq<Recipe>)
    ensures var cats := SortedCategories(rs);
            WithDessert(cats) == if DessertAdded(rs) then cats + [DessertOption] else cats
  {
    DessertAddedIff(rs);
  }

  /** The sorted category list with "All" entries removed stays sorted, and
      an appended "Dessert" stays last. */
  lemma OptionsSorted(cats: seq<string>, added: bool)
    requires StrictlySorted(cats)
    ensures var r := [AllOption] + Keep(if added then cats + [DessertOption] else cats, IsNotAll());
            && (added ==> |r| >= 2 && r[|r| - 1] == DessertOption && StrictlySorted(r[1..|r| - 1]))
            && (!added ==> StrictlySorted(r[1..]))
  {
    var kept := Keep(cats, IsNotAll());
    SubseqSorted(kept, cats);
    if added {
      KeepThenDessert(cats);
      DessertLast(kept);
    } else {
      assert ([AllOption] + kept)[1..] == kept;
    }
  }

  lemma DessertLast(kept: seq<string>)
    ensures var r := [AllOption] + (kept + [DessertOption]);
            |r| >= 2 && r[|r| - 1] == DessertOption && r[1..|r| - 1] == kept
  {
  }

  /** "Dessert" survives the removal of "All" entries. */
  lemma KeepThenDessert(cats: seq<string>)
    ensures Keep(cats + [DessertOption], IsNotAll()) == Keep(cats, IsNotAll()) + [DessertOption]
  {
    DessertIsNotAll(DessertOption);
    KeepAppend(cats, [DessertOption], IsNotAll());
    assert Keep([DessertOption], IsNotAll()) == [DessertOption];
  }

  // ---------------------------------------------------------------------
  // filterRecipes
  // ---------------------------------------------------------------------

  /** The category filter applies when the selection is non-null, non-blank
      and not "All" ignoring case. */
  predicate CategorySelected(sel: Option<string>) {
    sel.Some? && !TrimsToEmpty(sel.value) && !EqualsIgnoreCase(sel.value, AllOption)
  }

  predicate InCategory(x: Option<Recipe>, needle: string) {
    x.Some? && x.value.category.Some? && Contains(Lower(x.value.category.value), needle)
  }

  function InCategoryOf(needle: string): Option<Recipe> -> bool {
    (x: Option<Recipe>) => InCategory(x, needle)
  }

  /** The category step of `filterRecipes()`: keep the non-null recipes
      whose lowercased category contains the lowercased, trimmed selection. */
  function CategoryFilter(xs: seq<Option<Recipe>>, sel: Option<string>): (r: seq<Option<Recipe>>)
    ensures !CategorySelected(sel) ==> r == xs
    ensures CategorySelected(sel) ==> IsSubseq(r, xs)
    ensures CategorySelected(sel) ==> forall x :: x in xs ==> (x in r <==> InCategory(x, Trim(Lower(sel.value))))
  {
    if !CategorySelected(sel) then xs else Keep(xs, InCategoryOf(Trim(Lower(sel.value))))
  }

  /** A string contains its own trimmed form. */
  lemma ContainsTrim(s: string)
    ensures Contains(s, Trim(s))
  {
  }

  /** Picking any entry of the category list other than "All" keeps every
      recipe filed under exactly that category. */
  lemma ListedCategoryKeepsItsRecipes(rs: seq<Recipe>, c: string, xs: seq<Option<Recipe>>)
    requires c in CategoryOptions(rs)[1..]
    ensures CategorySelected(Some(c))
    ensures forall x :: x in xs && x.Some? && x.value.category == Some(c) ==> x in CategoryFilter(xs, Some(c))
  {
    CategoryOptionsMembers(rs);
    if c == DessertOption {
      assert !IsTrimSpace(c[0]);
    }
    ContainsTrim(Lower(c));
  }

  /** The LinkedHashMap pass of the dedupe: non-null recipes with an id, one
      per id, the first one seen, in first-occurrence order; ids in `seen`
      are already taken. */
  function FirstPerId(xs: seq<Option<Recipe>>, seen: set<int>): (r: seq<Recipe>)
    ensures IsSubseq(WrapAll(r), xs)
    ensures forall x :: x in r ==> x.id.Some? && x.id.value !in seen
    ensures forall i, j :: 0 <= i < j < |r| ==> r[i].id != r[j].id
    ensures forall k :: (0 <= k < |xs| && xs[k].Some? && xs[k].value.id.Some? && xs[k].value.id.value !in seen
                         && (forall j :: 0 <= j < k ==> xs[j] == None || xs[j].value.id != xs[k].value.id))
                        ==> xs[k].value in r
    decreases |xs|
  {
    if |xs| == 0 then []
    else if xs[0].Some? && xs[0].value.id.Some? && xs[0].value.id.value !in seen then
      var x := xs[0].value;
      var rest := FirstPerId(xs[1..], seen + {x.id.value});
      FirstPerIdStep(xs, seen, rest, true);
      [x] + rest
    else
      var rest := FirstPerId(xs[1..], seen);
      FirstPerIdStep(xs, seen, rest, false);
      rest
  }

  lemma FirstPerIdStep(xs: seq<Option<Recipe>>, seen: set<int>, rest: seq<Recipe>, keep: bool)
    requires |xs| > 0
    requires keep <==> xs[0].Some? && xs[0].value.id.Some? && xs[0].value.id.value !in seen
    requires var seen' := if keep then seen + {xs[0].value.id.value} else seen;
             && IsSubseq(WrapAll(rest), xs[1..])
             && (forall x :: x in rest ==> x.id.Some? && x.id.value !in seen')
             && (forall i, j :: 0 <= i < j < |rest| ==> rest[i].id != rest[j].id)
             && (forall k :: (0 <= k < |xs[1..]| && xs[1..][k].Some? && xs[1..][k].value.id.Some? && xs[1..][k].value.id.value !in seen'
                              && (forall j :: 0 <= j < k ==> xs[1..][j] == None || xs[1..][j].value.id != xs[1..][k].value.id))
                             ==> xs[1..][k].value in rest)
    ensures var r := if keep then [xs[0].value] + rest else rest;
            && IsSubseq(WrapAll(r), xs)
            && (forall x :: x in r ==> x.id.Some? && x.id.value !in seen)
            && (forall i, j :: 0 <= i < j < |r| ==> r[i].id != r[j].id)
            && (forall k :: (0 <= k < |xs| && xs[k].Some? && xs[k].value.id.Some? && xs[k].value.id.value !in seen
                             && (forall j :: 0 <= j < k ==> xs[j] == None || xs[j].value.id != xs[k].value.id))
                            ==> xs[k].value in r)
  {
    var seen' := if keep then seen + {xs[0].value.id.value} else seen;
    var r := if keep then [xs[0].value] + rest else rest;
    if keep {
      assert WrapAll(r) == [xs[0]] + WrapAll(rest);
      assert WrapAll(r)[0] == xs[0] && WrapAll(r)[1..] == WrapAll(rest);
      forall i, j | 0 <= i < j < |r| ensures r[i].id != r[j].id {
        if i == 0 {
          assert r[j] == rest[j - 1];
          assert rest[j - 1] in rest;
        } else {
          assert r[i] == rest[i - 1] && r[j] == rest[j - 1];
        }
      }
    } else {
      if |WrapAll(r)| > 0 {
        assert IsSubseq(WrapAll(r), xs);
      }
    }
    forall k | (0 <= k < |xs| && xs[k].Some? && xs[k].value.id.Some? && xs[k].value.id.value !in seen
                && (forall j :: 0 <= j < k ==> xs[j] == None || xs[j].value.id != xs[k].value.id))
      ensures xs[k].value in r
    {
      if k > 0 {
        assert xs[1..][k - 1] == xs[k];
        assert forall j :: 0 <= j < k - 1 ==> xs[1..][j] == xs[j + 1];
        assert xs[0] == None || xs[0].value.id != xs[k].value.id;
      }
    }
  }

  /** The second pass of the dedupe: the non-null recipes with a null id, in order. */
  function NullIdRecipes(xs: seq<Option<Recipe>>): (r: seq<Recipe>)
    ensures forall x :: x in r <==> Some(x) in xs && x.id.None?
    ensures IsSubseq(WrapAll(r), xs)
    decreases |xs|
  {
    if |xs| == 0 then []
    else
      var rest := NullIdRecipes(xs[1..]);
      assert forall y :: y in xs <==> y == xs[0] || y in xs[1..] by {
        assert xs == [xs[0]] + xs[1..];
      }
      if xs[0].Some? && xs[0].value.id.None? then
        assert WrapAll([xs[0].value] + rest) == [xs[0]] + WrapAll(rest);
        assert WrapAll([xs[0].value] + rest)[1..] == WrapAll(rest);
        [xs[0].value] + rest
      else
        rest
  }

  /** The elements of a list the second pass keeps: non-null, without an id. */
  function IsNullIdRecipe(): Option<Recipe> -> bool {
    (x: Option<Recipe>) => x.Some? && x.value.id.None?
  }

  /** The second pass keeps exactly the non-null recipes without an id, in
      list order and with their repetitions. */
  lemma {:induction false} NullIdRecipesInOrder(xs: seq<Option<Recipe>>)
    ensures WrapAll(NullIdRecipes(xs)) == Keep(xs, IsNullIdRecipe())
    decreases |xs|
  {
    if |xs| > 0 {
      NullIdRecipesInOrder(xs[1..]);
      if xs[0].Some? && xs[0].value.id.None? {
        WrapCons(xs[0].value, NullIdRecipes(xs[1..]));
      }
    }
  }

  /** Recipes that all have ids followed by recipes that all lack one: the
      ones with an id are exactly the first part. */
  lemma KeepIdsOfParts(withId: seq<Recipe>, noId: seq<Recipe>)
    requires forall x :: x in withId ==> x.id.Some?
    requires forall x :: x in noId ==> x.id.None?
    ensures Keep(withId + noId, HasId()) == withId
  {
    KeepAppend(withId, noId, HasId());
    KeepAll(withId, HasId());
    KeepNone(noId, HasId());
  }

  /** The final dedupe of `filterRecipes()`: nulls dropped, one recipe per
      non-null id (the first), then every recipe without an id. The first
      part keeps list order; the second is exactly the id-less recipes in
      list order. */
  function DedupeById(xs: seq<Option<Recipe>>): (r: seq<Recipe>)
    ensures forall x :: x in r ==> Some(x) in xs
    ensures forall x :: Some(x) in xs && x.id.None? ==> x in r
    ensures forall i, j :: 0 <= i < j < |r| && r[j].id.Some? ==> r[i].id != r[j].id
    ensures forall i, j :: 0 <= i < j < |r| && r[i].id.None? ==> r[j].id.None?
    ensures forall k :: (0 <= k < |xs| && xs[k].Some? && xs[k].value.id.Some?
                         && (forall j :: 0 <= j < k ==> xs[j] == None || xs[j].value.id != xs[k].value.id))
                        ==> xs[k].value in r
    ensures var n := |Keep(r, HasId())|;
            && n <= |r|
            && IsSubseq(WrapAll(r[..n]), xs)
            && WrapAll(r[n..]) == Keep(xs, IsNullIdRecipe())
  {
    var withId := FirstPerId(xs, {});
    var noId := NullIdRecipes(xs);
    WrappedMembers(withId, xs);
    IdsThenNoIds(withId, noId);
    KeepIdsOfParts(withId, noId);
    NullIdRecipesInOrder(xs);
    assert (withId + noId)[..|withId|] == withId;
    assert (withId + noId)[|withId|..] == noId;
    withId + noId
  }

  /** Some non-null element of `xs` holds a recipe with the non-null id of
      `x`, or that id is in `seen`. */
  predicate IdSeen(xs: seq<Option<Recipe>>, seen: set<int>, x: Recipe) {
    x.id.Some? && (x.id.value in seen || exists k :: 0 <= k < |xs| && xs[k].Some? && xs[k].value.id == x.id)
  }

  /** An element that the map by id takes when it comes last: a non-null
      recipe whose id is non-null and not seen before. */
  predicate NewId(xs: seq<Option<Recipe>>, seen: set<int>, x: Option<Recipe>) {
    x.Some? && x.value.id.Some? && !IdSeen(xs, seen, x.value)
  }

  /** The map by id read from the end: an element appended to the list adds
      its recipe, last, exactly when it brings a new id. Together with
      FirstPerId([], seen) == [] this fixes the result: the first recipe of
      each id, in first-occurrence order. */
  lemma {:induction false} FirstPerIdAppend(xs: seq<Option<Recipe>>, x: Option<Recipe>, seen: set<int>)
    ensures FirstPerId(xs + [x], seen)
            == if NewId(xs, seen, x) then FirstPerId(xs, seen) + [x.value] else FirstPerId(xs, seen)
    decreases |xs|
  {
    if |xs| == 0 {
      assert xs + [x] == [x];
      assert [x][1..] == [];
    } else {
      var h := xs[0];
      var keepHead := h.Some? && h.value.id.Some? && h.value.id.value !in seen;
      var seen' := if keepHead then seen + {h.value.id.value} else seen;
      var rest, rest' := FirstPerId(xs[1..], seen'), FirstPerId(xs[1..] + [x], seen');
      assert (xs + [x])[0] == h && (xs + [x])[1..] == xs[1..] + [x];
      FirstPerIdCons(xs + [x], seen);
      FirstPerIdCons(xs, seen);
      FirstPerIdAppend(xs[1..], x, seen');
      if x.Some? {
        IdSeenStep(xs, seen, seen', x.value);
      }
      var add := NewId(xs, seen, x);
      assert rest' == if add then rest + [x.value] else rest;
      if keepHead {
        ConsSnocStep(h.value, rest, rest', add, if add then x.value else h.value);
      }
    }
  }

  /** One step of the map by id: the head is taken when it brings a new id,
      and the rest is read with that id seen. */
  lemma FirstPerIdCons(xs: seq<Option<Recipe>>, seen: set<int>)
    requires |xs| > 0
    ensures var h := xs[0];
            var keepHead := h.Some? && h.value.id.Some? && h.value.id.value !in seen;
            var rest := FirstPerId(xs[1..], if keepHead then seen + {h.value.id.value} else seen);
            FirstPerId(xs, seen) == if keepHead then [h.value] + rest else rest
  {
  }

  /** Taking the head's id into `seen` and dropping the head leaves the
      same ids seen. */
  lemma IdSeenStep(xs: seq<Option<Recipe>>, seen: set<int>, seen': set<int>, x: Recipe)
    requires |xs| > 0
    requires seen' == if xs[0].Some? && xs[0].value.id.Some? && xs[0].value.id.value !in seen
                      then seen + {xs[0].value.id.value} else seen
    ensures IdSeen(xs[1..], seen', x) <==> IdSeen(xs, seen, x)
  {
    if IdSeen(xs, seen, x) && x.id.value !in seen {
      var k :| 0 <= k < |xs| && xs[k].Some? && xs[k].value.id == x.id;
      if k > 0 {
        assert xs[1..][k - 1] == xs[k];
      }
    }
    if IdSeen(xs[1..], seen', x) && x.id.value !in seen' {
      var k :| 0 <= k < |xs[1..]| && xs[1..][k].Some? && xs[1..][k].value.id == x.id;
      assert xs[k + 1] == xs[1..][k];
    }
  }

  /** The second pass read from the end: an appended recipe without an id
      goes last, and anything else adds nothing. */
  lemma {:induction false} NullIdRecipesAppend(xs: seq<Option<Recipe>>, x: Option<Recipe>)
    ensures NullIdRecipes(xs + [x])
            == if x.Some? && x.value.id.None? then NullIdRecipes(xs) + [x.value] else NullIdRecipes(xs)
    decreases |xs|
  {
    if |xs| == 0 {
      assert xs + [x] == [x];
      assert [x][1..] == [];
    } else {
      var h := xs[0];
      var rest := NullIdRecipes(xs[1..]);
      assert (xs + [x])[0] == h && (xs + [x])[1..] == xs[1..] + [x];
      var rest' := NullIdRecipes(xs[1..] + [x]);
      NullIdRecipesAppend(xs[1..], x);
      var add := x.Some? && x.value.id.None?;
      assert rest' == if add then rest + [x.value] else rest;
      if h.Some? && h.value.id.None? {
        ConsSnocStep(h.value, rest, rest', add, if add then x.value else h.value);
      }
    }
  }

  /** The whole dedupe read from the end. With `n` the number of recipes
      with an id in DedupeById(xs), an appended element with a new id goes
      at position `n`, after the other recipes with ids; a recipe without an
      id goes last; anything else (null, or an id seen before) adds nothing.
      With DedupeById([]) == [] this fixes the result exactly. */
  lemma DedupeByIdAppend(xs: seq<Option<Recipe>>, x: Option<Recipe>)
    ensures var d := DedupeById(xs);
            var n := |Keep(d, HasId())|;
            && n <= |d|
            && DedupeById(xs + [x])
               == if NewId(xs, {}, x) then d[..n] + [x.value] + d[n..]
                  else if x.Some? && x.value.id.None? then d + [x.value]
                  else d
  {
    var withId, noId := FirstPerId(xs, {}), NullIdRecipes(xs);
    var withId', noId' := FirstPerId(xs + [x], {}), NullIdRecipes(xs + [x]);
    var d, d' := DedupeById(xs), DedupeById(xs + [x]);
    assert d == withId + noId;
    assert d' == withId' + noId';
    KeepIdsOfParts(withId, noId);
    FirstPerIdAppend(xs, x, {});
    NullIdRecipesAppend(xs, x);
    var v := if x.Some? then x.value else NewRecipe();
    DedupeSnocShape(withId, noId, withId', noId', NewId(xs, {}, x), x.Some? && x.value.id.None?, v);
  }

  /** The sequence algebra of DedupeByIdAppend. */
  lemma DedupeSnocShape<T>(withId: seq<T>, noId: seq<T>, withId': seq<T>, noId': seq<T>,
                           newId: bool, noIdAdded: bool, v: T)
    requires !(newId && noIdAdded)
    requires withId' == if newId then withId + [v] else withId
    requires noId' == if noIdAdded then noId + [v] else noId
    ensures var d, n := withId + noId, |withId|;
            withId' + noId' == if newId then d[..n] + [v] + d[n..] else if noIdAdded then d + [v] else d
  {
    var d, n := withId + noId, |withId|;
    assert d[..n] == withId && d[n..] == noId;
  }

  /** Two recipes with different ids: the dedupe keeps the first occurrence
      of each, in list order. */
  lemma DedupeKeepsFirstOccurrences(a: Recipe, b: Recipe)
    requires a.id.Some? && b.id.Some? && a.id != b.id
    ensures DedupeById([Some(a), Some(b), Some(a)]) == [a, b]
  {
    var ab := [Some(a), Some(b)];
    assert ab + [Some(a)] == [Some(a), Some(b), Some(a)];
    assert WrapAll([a, b]) == ab;
    DedupeOfDeduped([a, b]);
    assert IdSeen(ab, {}, a) by {
      assert ab[0].value.id == a.id;
    }
    DedupeByIdAppend(ab, Some(a));
  }

  /** Recipes with distinct ids followed by recipes without one: no id
      repeats, and no recipe with an id comes after one without. */
  lemma IdsThenNoIds(withId: seq<Recipe>, noId: seq<Recipe>)
    requires forall x :: x in withId ==> x.id.Some?
    requires forall i, j :: 0 <= i < j < |withId| ==> withId[i].id != withId[j].id
    requires forall x :: x in noId ==> x.id.None?
    ensures var r := withId + noId;
            && (forall i, j :: 0 <= i < j < |r| && r[j].id.Some? ==> r[i].id != r[j].id)
            && (forall i, j :: 0 <= i < j < |r| && r[i].id.None? ==> r[j].id.None?)
  {
    var r := withId + noId;
    forall i, j | 0 <= i < j < |r| && r[j].id.Some? ensures r[i].id != r[j].id {
      if j < |withId| {
        assert r[i] == withId[i] && r[j] == withId[j];
      }
    }
    forall i, j | 0 <= i < j < |r| && r[i].id.None? ensures r[j].id.None? {
      if i >= |withId| {
        assert r[j] == noId[j - |withId|];
        assert r[j] in noId;
      }
    }
  }

  /** Members of a wrapped subsequence come from the list. */
  lemma WrappedMembers(r: seq<Recipe>, xs: seq<Option<Recipe>>)
    requires IsSubseq(WrapAll(r), xs)
    ensures forall x :: x in r ==> Some(x) in xs
  {
    SubseqMembers(WrapAll(r), xs);
    forall x | x in r ensures Some(x) in xs {
      var k :| 0 <= k < |r| && r[k] == x;
      assert WrapAll(r)[k] == Some(x);
    }
  }


  /** With distinct ids none of which is in `seen`, the first pass keeps
      every recipe that has an id. */
  lemma {:induction false} FirstPerIdOfDistinct(xs: seq<Recipe>, seen: set<int>)
    requires IdsDistinct(xs) && IdsFresh(xs, seen)
    ensures FirstPerId(WrapAll(xs), seen) == Keep(xs, HasId())
    decreases |xs|
  {
    if |xs| > 0 {
      var rest := xs[1..];
      assert WrapAll(xs)[1..] == WrapAll(rest);
      DistinctTail(xs, seen);
      if xs[0].id.Some? {
        FirstPerIdOfDistinct(rest, seen + {xs[0].id.value});
        assert FirstPerId(WrapAll(xs), seen) == [xs[0]] + FirstPerId(WrapAll(rest), seen + {xs[0].id.value});
      } else {
        FirstPerIdOfDistinct(rest, seen);
        assert FirstPerId(WrapAll(xs), seen) == FirstPerId(WrapAll(rest), seen);
      }
    }
  }

  lemma {:induction false} NullIdRecipesOfWrapped(xs: seq<Recipe>)
    ensures NullIdRecipes(WrapAll(xs)) == Keep(xs, NoId())
    decreases |xs|
  {
    if |xs| > 0 {
      assert WrapAll(xs)[1..] == WrapAll(xs[1..]);
      NullIdRecipesOfWrapped(xs[1..]);
    }
  }

  /** Recipes with ids first, then those without: splitting by id and
      putting the two parts back together gives the list. */
  lemma PartitionById(xs: seq<Recipe>)
    requires NoneLast(xs)
    ensures Keep(xs, HasId()) + Keep(xs, NoId()) == xs
  {
    KeepSplitsPrefix(xs, HasId(), NoId());
  }

  /** Recipes without an id come after every recipe with one. */
  predicate NoneLast(xs: seq<Recipe>) {
    forall i, j :: 0 <= i < j < |xs| && xs[i].id.None? ==> xs[j].id.None?
  }

  /** A list already in the dedupe's shape (distinct ids, recipes without an
      id last) comes through it unchanged; so the dedupe is idempotent. */
  lemma DedupeOfDeduped(xs: seq<Recipe>)
    requires forall i, j :: 0 <= i < j < |xs| && xs[j].id.Some? ==> xs[i].id != xs[j].id
    requires forall i, j :: 0 <= i < j < |xs| && xs[i].id.None? ==> xs[j].id.None?
    ensures DedupeById(WrapAll(xs)) == xs
  {
    FirstPerIdOfDistinct(xs, {});
    NullIdRecipesOfWrapped(xs);
    PartitionById(xs);
  }

  lemma DedupeIdempotent(xs: seq<Option<Recipe>>)
    ensures DedupeById(WrapAll(DedupeById(xs))) == DedupeById(xs)
  {
    DedupeOfDeduped(DedupeById(xs));
  }

  /** `filterRecipes()`: the service search on the trimmed query text (an
      absent field searches for ""), then the category filter, then the dedupe. */
  function FilterRecipes(t: Tables, s: Session, query: Option<string>, category: Option<string>): (rs: seq<Recipe>)
    ensures forall x :: x in rs ==> x in SearchRecipes(t, s, Some(if query.None? then "" else Trim(query.value)))
    ensures CategorySelected(category) ==> forall x :: x in rs ==> InCategory(Some(x), Trim(Lower(category.value)))
  {
    var found := SearchRecipes(t, s, Some(if query.None? then "" else Trim(query.value)));
    ShownAreFound(found, category);
    DedupeById(CategoryFilter(WrapAll(found), category))
  }

  /** Every recipe left after the category filter and the dedupe is one of
      the recipes filtered, and lies in the chosen category. */
  lemma ShownAreFound(found: seq<Recipe>, category: Option<string>)
    ensures forall x :: x in DedupeById(CategoryFilter(WrapAll(found), category)) ==>
              x in found && (CategorySelected(category) ==> InCategory(Some(x), Trim(Lower(category.value))))
  {
    var shown := CategoryFilter(WrapAll(found), category);
    forall x | x in DedupeById(shown)
      ensures x in found && (CategorySelected(category) ==> InCategory(Some(x), Trim(Lower(category.value))))
    {
      assert Some(x) in shown;
      if CategorySelected(category) {
        SubseqMembers(shown, WrapAll(found));
      }
      var k :| 0 <= k < |WrapAll(found)| && WrapAll(found)[k] == Some(x);
      assert found[k] == x;
    }
  }

  /** With no category picked, on a well-formed store, the screen shows
      exactly what the service search returns: the dedupe removes nothing. */
  lemma FilterWithoutCategoryIsSearch(t: Tables, s: Session, query: Option<string>, category: Option<string>)
    requires WellFormed(t)
    requires !CategorySelected(category)
    ensures FilterRecipes(t, s, query, category) == SearchRecipes(t, s, Some(if query.None? then "" else Trim(query.value)))
  {
    var found := SearchRecipes(t, s, Some(if query.None? then "" else Trim(query.value)));
    SearchResultsHaveDistinctIds(t, s, Some(if query.None? then "" else Trim(query.value)));
    DedupeOfDeduped(found);
  }

  function InCategoryRecipe(needle: string): Recipe -> bool {
    (x: Recipe) => InCategory(Some(x), needle)
  }

  lemma {:induction false} KeepWrapped(xs: seq<Recipe>, needle: string)
    ensures Keep(WrapAll(xs), InCategoryOf(needle)) == WrapAll(Keep(xs, InCategoryRecipe(needle)))
    decreases |xs|
  {
    if |xs| > 0 {
      KeepWrapped(xs[1..], needle);
      assert WrapAll(xs)[1..] == WrapAll(xs[1..]);
      if InCategory(Some(xs[0]), needle) {
        WrapCons(xs[0], Keep(xs[1..], InCategoryRecipe(needle)));
      }
    }
  }

  /** The dedupe of a category's share of a list with present, distinct ids
      is that share itself. */
  lemma DedupeOfCategory(found: seq<Recipe>, needle: string)
    requires forall x :: x in found ==> x.id.Some?
    requires forall i, j :: 0 <= i < j < |found| && found[j].id.Some? ==> found[i].id != found[j].id
    ensures DedupeById(Keep(WrapAll(found), InCategoryOf(needle))) == Keep(found, InCategoryRecipe(needle))
  {
    var kept := Keep(found, InCategoryRecipe(needle));
    PresentIdsDistinct(found);
    KeptIdsDistinct(kept, found);
    KeepWrapped(found, needle);
    DedupeOfDeduped(kept);
  }

  lemma PresentIdsDistinct(found: seq<Recipe>)
    requires forall x :: x in found ==> x.id.Some?
    requires forall i, j :: 0 <= i < j < |found| && found[j].id.Some? ==> found[i].id != found[j].id
    ensures forall k :: 0 <= k < |found| ==> found[k].id.Some?
    ensures forall i, j :: 0 <= i < j < |found| ==> found[i].id != found[j].id
  {
    forall i, j | 0 <= i < j < |found| ensures found[i].id != found[j].id {
      assert found[j] in found;
    }
  }

  /** With a category picked, on a well-formed store, the screen shows
      exactly the search results in that category, in search order: none
      is lost and the dedupe removes nothing. */
  lemma FilterWithCategoryIsKeep(t: Tables, s: Session, query: Option<string>, category: Option<string>)
    requires WellFormed(t)
    requires CategorySelected(category)
    ensures FilterRecipes(t, s, query, category)
         == Keep(SearchRecipes(t, s, Some(if query.None? then "" else Trim(query.value))), InCategoryRecipe(Trim(Lower(category.value))))
  {
    var q := Some(if query.None? then "" else Trim(query.value));
    SearchResultsHaveDistinctIds(t, s, q);
    DedupeOfCategory(SearchRecipes(t, s, q), Trim(Lower(category.value)));
  }

  /** On a well-formed store every recipe a search returns has an id, and no
      two share one. */
  lemma SearchResultsHaveDistinctIds(t: Tables, s: Session, query: Option<string>)
    requires WellFormed(t)
    ensures var found := SearchRecipes(t, s, query);
            && (forall x :: x in found ==> x.id.Some?)
            && (forall i, j :: 0 <= i < j < |found| && found[j].id.Some? ==> found[i].id != found[j].id)
            && (forall i, j :: 0 <= i < j < |found| && found[i].id.None? ==> found[j].id.None?)
  {
    var all := RecipeDao.FindAll(t);
    FindAllIdsDistinct(t);
    KeptIdsDistinct(SearchRecipes(t, s, query), all);
  }

  /** A subsequence of a list whose ids are all present and distinct has the
      same two properties. */
  lemma KeptIdsDistinct(found: seq<Recipe>, all: seq<Recipe>)
    requires IsSubseq(found, all)
    requires forall k :: 0 <= k < |all| ==> all[k].id.Some?
    requires forall i, j :: 0 <= i < j < |all| ==> all[i].id != all[j].id
    ensures forall x :: x in found ==> x.id.Some?
    ensures forall i, j :: 0 <= i < j < |found| && found[j].id.Some? ==> found[i].id != found[j].id
    ensures forall i, j :: 0 <= i < j < |found| && found[i].id.None? ==> found[j].id.None?
  {
    SubseqMembers(found, all);
    UniqueIdsKept(all, found);
  }

  // ---------------------------------------------------------------------
  // Ingredient and instruction text in the recipe dialog
  // ---------------------------------------------------------------------

  /** A null string written as "" (the `s == null ? "" : s` of the dialog). */
  function OrEmpty(s: Option<string>): (r: string)
    ensures s.Some? ==> r == s.value
    ensures s.None? ==> r == ""
  {
    if s.None? then "" else s.value
  }

  /** The quantity field of a line: empty unless the quantity is positive. */
  function QuantityText(q: real, codec: QuantityCodec): string {
    if q > 0.0 then codec.render(q) else ""
  }

  /** One line of the ingredients text: `name;quantity;unit;notes`. */
  function IngredientLine(i: Ingredient, codec: QuantityCodec): string {
    Join([OrEmpty(i.name), QuantityText(i.quantity, codec), OrEmpty(i.unit), OrEmpty(i.notes)], ';')
  }

  lemma Join4(a: string, b: string, c: string, d: string, sep: char)
    ensures Join([a, b, c, d], sep) == a + [sep] + b + [sep] + c + [sep] + d
  {
    assert [a, b, c, d][1..] == [b, c, d];
    assert [b, c, d][1..] == [c, d];
    assert [c, d][1..] == [d];
    assert Join([d], sep) == d;
    assert Join([c, d], sep) == c + [sep] + d;
    assert Join([b, c, d], sep) == b + [sep] + (c + [sep] + d);
    assert Join([a, b, c, d], sep) == a + [sep] + (b + [sep] + (c + [sep] + d));
  }

  /** The lines of a list with no null element; null if there is one. */
  function IngredientLines(items: seq<Option<Ingredient>>, codec: QuantityCodec): (r: Option<seq<string>>)
    ensures r.Some? <==> forall k :: 0 <= k < |items| ==> items[k].Some?
    ensures r.Some? ==> |r.value| == |items| && forall k :: 0 <= k < |items| ==> r.value[k] == IngredientLine(items[k].value, codec)
    decreases |items|
  {
    if |items| == 0 then Some([])
    else if items[0].None? then None
    else match IngredientLines(items[1..], codec)
      case None => None
      case Some(rest) => Some([IngredientLine(items[0].value, codec)] + rest)
  }

  /** The ingredients text area filled from a recipe: one line per
      ingredient joined by line breaks; a null element stops it with a
      NullPointerException. */
  function IngredientsText(items: seq<Option<Ingredient>>, codec: QuantityCodec): (r: Result<string>)
    ensures r.Err? <==> exists k :: 0 <= k < |items| && items[k].None?
    ensures r.Err? ==> r.error == NullPointer
    ensures |items| == 0 ==> r == Ok("")
    ensures r.Ok? ==> IngredientLines(items, codec).Some? && r.value == Join(IngredientLines(items, codec).value, '\n')
  {
    match IngredientLines(items, codec)
      case None => Err(NullPointer)
      case Some(lines) => Ok(Join(lines, '\n'))
  }

  /** The instructions text area: `String.join("\n", ...)`, which writes a
      null element as "null". */
  function InstructionsText(items: seq<Option<string>>): (r: string)
    ensures |items| == 0 ==> r == ""
    ensures |items| > 0 ==> NullText(items[0]) <= r
  {
    if |items| == 0 then "" else
      JoinPrefix(Map(items, NullText), '\n');
      Join(Map(items, NullText), '\n')
  }

  /** Each step is one line of the text, a null one as "null", as long as
      no step holds a line break of its own. */
  lemma InstructionsTextLines(items: seq<Option<string>>)
    requires |items| > 0
    requires forall k :: 0 <= k < |items| ==> '\n' !in NullText(items[k])
    ensures Split(InstructionsText(items), '\n') == Map(items, NullText)
  {
    SplitJoin(Map(items, NullText), '\n');
  }

  /** One line of the ingredients text read back: blank lines and lines
      whose first field is blank give nothing; a missing or unreadable
      quantity is 0, a missing unit or note is "". */
  function ParseIngredientLine(line: string, codec: QuantityCodec): (r: Option<Ingredient>)
    ensures TrimsToEmpty(line) ==> r.None?
    ensures r.Some? ==> r.value.id.None? && r.value.name.Some? && r.value.name.value != [] && IsTrimmed(r.value.name.value)
    ensures r.Some? ==> r.value.unit.Some? && IsTrimmed(r.value.unit.value) && r.value.notes.Some? && IsTrimmed(r.value.notes.value)
    ensures r.Some? ==> ';' !in r.value.name.value && ';' !in r.value.unit.value && ';' !in r.value.notes.value
    ensures var parts := Split(Trim(line), ';');
            && (!TrimsToEmpty(line) ==> (r.Some? <==> Trim(parts[0]) != []))
            && (r.Some? ==> r.value.name == Some(Trim(parts[0])))
            && (r.Some? && (|parts| < 2 || Trim(parts[1]) == []) ==> r.value.quantity == 0.0)
            && (r.Some? && |parts| >= 2 && Trim(parts[1]) != [] ==>
                  r.value.quantity == if codec.parse(Trim(parts[1])).Some? then codec.parse(Trim(parts[1])).value else 0.0)
            && (r.Some? && |parts| < 3 ==> r.value.unit == Some(""))
            && (r.Some? && |parts| >= 3 ==> r.value.unit == Some(Trim(parts[2])))
            && (r.Some? && |parts| < 4 ==> r.value.notes == Some(""))
            && (r.Some? && |parts| >= 4 ==> r.value.notes == Some(Trim(parts[3])))
  {
    var trimmed := Trim(line);
    if trimmed == [] then None
    else
      var parts := Split(trimmed, ';');
      var name := Trim(parts[0]);
      if name == [] then None
      else
        var qty := if |parts| > 1 && Trim(parts[1]) != [] then
                     match codec.parse(Trim(parts[1]))
                       case Some(q) => q
                       case None => 0.0
                   else 0.0;
        var unit := if |parts| > 2 then Trim(parts[2]) else "";
        var notes := if |parts| > 3 then Trim(parts[3]) else "";
        TrimsDropNothingNew(parts, ';');
        Some(Ingredient(None, Some(name), qty, Some(unit), Some(notes)))
  }

  /** Trim only removes chars: a char absent from `s` is absent from its trim. */
  lemma TrimDropsNothingNew(s: string, c: char)
    requires c !in s
    ensures c !in Trim(s)
  {
    var i, j := LeadingSpace(s), TrailingStart(s);
    if i < j {
      assert Trim(s) == s[i..j];
      forall k | 0 <= k < j - i ensures s[i..j][k] != c {
        assert s[i..j][k] == s[i + k];
      }
    }
  }

  lemma TrimsDropNothingNew(parts: seq<string>, c: char)
    requires forall k :: 0 <= k < |parts| ==> c !in parts[k]
    ensures forall k :: 0 <= k < |parts| ==> c !in Trim(parts[k])
  {
    forall k | 0 <= k < |parts| ensures c !in Trim(parts[k]) {
      TrimDropsNothingNew(parts[k], c);
    }
  }

  function ParseIngredientLines(lines: seq<string>, codec: QuantityCodec): (r: seq<Ingredient>)
    ensures |r| <= |lines|
    ensures forall i :: i in r ==> i.id.None? && i.name.Some? && i.name.value != [] && IsTrimmed(i.name.value)
    decreases |lines|
  {
    if |lines| == 0 then []
    else match ParseIngredientLine(lines[0], codec)
      case None => ParseIngredientLines(lines[1..], codec)
      case Some(i) => [i] + ParseIngredientLines(lines[1..], codec)
  }

  /** The ingredients text area read on Save: nothing for null or blank
      text, otherwise one ingredient per usable line. */
  function ParseIngredients(text: Option<string>, codec: QuantityCodec): (r: seq<Ingredient>)
    ensures text.None? || TrimsToEmpty(text.value) ==> r == []
    ensures forall i :: i in r ==> i.id.None? && i.name.Some? && i.name.value != [] && IsTrimmed(i.name.value)
  {
    if text.None? || TrimsToEmpty(text.value) then [] else ParseIngredientLines(Split(text.value, '\n'), codec)
  }

  /** The non-blank lines, trimmed. */
  function NonBlankLines(lines: seq<string>): (r: seq<string>)
    ensures |r| <= |lines|
    ensures forall s :: s in r ==> s != [] && IsTrimmed(s)
    ensures forall s :: s in lines && !TrimsToEmpty(s) ==> Trim(s) in r
    decreases |lines|
  {
    if |lines| == 0 then []
    else
      assert forall s :: s in lines <==> s == lines[0] || s in lines[1..] by {
        assert lines == [lines[0]] + lines[1..];
      }
      var rest := NonBlankLines(lines[1..]);
      if TrimsToEmpty(lines[0]) then rest else [Trim(lines[0])] + rest
  }

  /** The instructions text area read on Save: its non-blank lines, trimmed. */
  function ParseInstructions(text: Option<string>): (r: seq<string>)
    ensures text.None? || TrimsToEmpty(text.value) ==> r == []
    ensures forall s :: s in r ==> s != [] && IsTrimmed(s) && '\n' !in s
  {
    if text.None? || TrimsToEmpty(text.value) then []
    else
      var lines := Split(text.value, '\n');
      var r := NonBlankLines(lines);
      NonBlankLinesHaveNoBreak(lines);
      r
  }

  lemma {:induction false} NonBlankLinesHaveNoBreak(lines: seq<string>)
    requires forall k :: 0 <= k < |lines| ==> '\n' !in lines[k]
    ensures forall s :: s in NonBlankLines(lines) ==> '\n' !in s
    decreases |lines|
  {
    if |lines| > 0 {
      assert forall k :: 0 <= k < |lines[1..]| ==> '\n' !in lines[1..][k] by {
        forall k | 0 <= k < |lines[1..]| ensures '\n' !in lines[1..][k] {
          assert lines[1..][k] == lines[k + 1];
        }
      }
      NonBlankLinesHaveNoBreak(lines[1..]);
      TrimDropsNothingNew(lines[0], '\n');
    }
  }

  /** ParseIngredientLine as a function value. */
  function ParseLine(codec: QuantityCodec): string -> Option<Ingredient> {
    (line: string) => ParseIngredientLine(line, codec)
  }

  /** A line the instruction parser keeps: not blank once trimmed. */
  function NotBlankLine(): string -> bool {
    (s: string) => !TrimsToEmpty(s)
  }

  /** The ingredients read from some lines are the lines' parses in order,
      skipping exactly the lines that yield nothing. */
  lemma {:induction false} ParseIngredientLinesInOrder(lines: seq<string>, codec: QuantityCodec)
    ensures WrapAll(ParseIngredientLines(lines, codec)) == Keep(Map(lines, ParseLine(codec)), IsPresent())
    decreases |lines|
  {
    if |lines| > 0 {
      var m := Map(lines, ParseLine(codec));
      assert m[1..] == Map(lines[1..], ParseLine(codec));
      ParseIngredientLinesInOrder(lines[1..], codec);
      if ParseIngredientLine(lines[0], codec).Some? {
        WrapCons(ParseIngredientLine(lines[0], codec).value, ParseIngredientLines(lines[1..], codec));
      }
    }
  }

  /** Non-blank text reads as the parses of its lines, in order. */
  lemma ParseIngredientsByLine(text: Option<string>, codec: QuantityCodec)
    requires text.Some? && !TrimsToEmpty(text.value)
    ensures WrapAll(ParseIngredients(text, codec)) == Keep(Map(Split(text.value, '\n'), ParseLine(codec)), IsPresent())
  {
    ParseIngredientLinesInOrder(Split(text.value, '\n'), codec);
  }

  /** NonBlankLines keeps the non-blank lines in order, trimming each. */
  lemma {:induction false} NonBlankLinesInOrder(lines: seq<string>)
    ensures NonBlankLines(lines) == Map(Keep(lines, NotBlankLine()), Trim)
    decreases |lines|
  {
    if |lines| > 0 {
      NonBlankLinesInOrder(lines[1..]);
      if !TrimsToEmpty(lines[0]) {
        var k := Keep(lines, NotBlankLine());
        assert k == [lines[0]] + Keep(lines[1..], NotBlankLine());
        assert k[1..] == Keep(lines[1..], NotBlankLine());
      }
    }
  }

  /** Non-blank text reads as its non-blank lines, trimmed, in order. */
  lemma ParseInstructionsByLine(text: Option<string>)
    requires text.Some? && !TrimsToEmpty(text.value)
    ensures ParseInstructions(text) == Map(Keep(Split(text.value, '\n'), NotBlankLine()), Trim)
  {
    NonBlankLinesInOrder(Split(text.value, '\n'));
  }

  // ---------------------------------------------------------------------
  // Round trips of the dialog text
  // ---------------------------------------------------------------------

  /** A field the text form carries intact: trimmed, with no separator. */
  predicate Clean(s: string) {
    IsTrimmed(s) && ';' !in s && '\n' !in s
  }

  /** An ingredient whose line reads back: a non-empty name, clean fields,
      and, for a positive quantity, a rendering the codec reads back. */
  predicate LineSafe(i: Ingredient, codec: QuantityCodec) {
    && i.name.Some? && i.name.value != [] && Clean(i.name.value)
    && Clean(OrEmpty(i.unit)) && Clean(OrEmpty(i.notes))
    && (i.quantity > 0.0 ==> codec.render(i.quantity) != [] && Clean(codec.render(i.quantity))
                             && codec.parse(codec.render(i.quantity)) == Some(i.quantity))
  }

  /** What the dialog makes of an ingredient it wrote out: no id, a
      non-positive quantity as 0, null unit and notes as "". */
  function Reparsed(i: Ingredient): Ingredient {
    Ingredient(None, i.name, if i.quantity > 0.0 then i.quantity else 0.0, Some(OrEmpty(i.unit)), Some(OrEmpty(i.notes)))
  }

  lemma CleanTrim(s: string)
    requires Clean(s)
    ensures Trim(s) == s
  {
    TrimOfTrimmed(s);
  }

  /** One ingredient line written and read back. */
  lemma IngredientLineRoundTrip(i: Ingredient, codec: QuantityCodec)
    requires LineSafe(i, codec)
    ensures '\n' !in IngredientLine(i, codec)
    ensures !TrimsToEmpty(IngredientLine(i, codec))
    ensures ParseIngredientLine(IngredientLine(i, codec), codec) == Some(Reparsed(i))
  {
    var n, q, u, no := OrEmpty(i.name), QuantityText(i.quantity, codec), OrEmpty(i.unit), OrEmpty(i.notes);
    assert Clean(q);
    JoinedLineShape(n, q, u, no);
    ParseJoinedLine(n, q, u, no, codec);
  }

  /** A line joined from clean fields with a non-empty first field is
      trimmed, not blank and a single line. */
  lemma JoinedLineShape(n: string, q: string, u: string, no: string)
    requires n != [] && Clean(n) && Clean(q) && Clean(u) && Clean(no)
    ensures var line := Join([n, q, u, no], ';');
            '\n' !in line && !TrimsToEmpty(line) && IsTrimmed(line)
  {
    var line := Join([n, q, u, no], ';');
    Join4(n, q, u, no, ';');
    assert line == n + [';'] + q + [';'] + u + [';'] + no;
    assert line[0] == n[0];
    if |no| > 0 {
      assert line[|line| - 1] == no[|no| - 1];
    } else {
      assert line[|line| - 1] == ';';
    }
  }

  /** The fields of a line joined from clean fields come back as they were. */
  lemma ParseJoinedLine(n: string, q: string, u: string, no: string, codec: QuantityCodec)
    requires n != [] && Clean(n) && Clean(q) && Clean(u) && Clean(no)
    ensures ParseIngredientLine(Join([n, q, u, no], ';'), codec)
            == Some(Ingredient(None, Some(n), if q != [] && codec.parse(q).Some? then codec.parse(q).value else 0.0,
                               Some(u), Some(no)))
  {
    var line := Join([n, q, u, no], ';');
    JoinedLineShape(n, q, u, no);
    TrimOfTrimmed(line);
    SplitJoin([n, q, u, no], ';');
    CleanTrim(n);
    CleanTrim(q);
    CleanTrim(u);
    CleanTrim(no);
  }

  /** Every ingredient of `items` reads back from its line. */
  predicate AllLineSafe(items: seq<Ingredient>, codec: QuantityCodec) {
    forall k :: 0 <= k < |items| ==> LineSafe(items[k], codec)
  }

  /** `lines` are the lines written for `items`, one each. */
  predicate LinesOf(items: seq<Ingredient>, lines: seq<string>, codec: QuantityCodec) {
    |lines| == |items| && forall k :: 0 <= k < |items| ==> lines[k] == IngredientLine(items[k], codec)
  }

  lemma LinesOfTail(items: seq<Ingredient>, lines: seq<string>, codec: QuantityCodec)
    requires |items| > 0 && AllLineSafe(items, codec) && LinesOf(items, lines, codec)
    ensures AllLineSafe(items[1..], codec) && LinesOf(items[1..], lines[1..], codec)
    ensures LineSafe(items[0], codec) && lines[0] == IngredientLine(items[0], codec)
  {
  }

  lemma {:induction false} IngredientLinesRoundTrip(items: seq<Ingredient>, lines: seq<string>, codec: QuantityCodec)
    requires AllLineSafe(items, codec) && LinesOf(items, lines, codec)
    ensures ParseIngredientLines(lines, codec) == Map(items, Reparsed)
    decreases |items|
  {
    if |items| > 0 {
      LinesOfTail(items, lines, codec);
      IngredientLineRoundTrip(items[0], codec);
      assert ParseIngredientLines(lines, codec) == [Reparsed(items[0])] + ParseIngredientLines(lines[1..], codec);
      IngredientLinesRoundTrip(items[1..], lines[1..], codec);
    }
  }

  lemma LinesUsable(items: seq<Ingredient>, lines: seq<string>, codec: QuantityCodec)
    requires AllLineSafe(items, codec) && LinesOf(items, lines, codec)
    ensures forall k :: 0 <= k < |lines| ==> '\n' !in lines[k] && !TrimsToEmpty(lines[k])
  {
    forall k | 0 <= k < |lines| ensures '\n' !in lines[k] && !TrimsToEmpty(lines[k]) {
      IngredientLineRoundTrip(items[k], codec);
    }
  }

  /** The lines written for a list without nulls are those of its elements. */
  lemma LinesOfWrapped(items: seq<Ingredient>, codec: QuantityCodec)
    ensures IngredientLines(WrapAll(items), codec).Some?
    ensures LinesOf(items, IngredientLines(WrapAll(items), codec).value, codec)
  {
  }

  /** A join whose first part is not blank is not blank. */
  lemma JoinNotBlank(parts: seq<string>, sep: char)
    requires |parts| > 0 && !TrimsToEmpty(parts[0])
    ensures !TrimsToEmpty(Join(parts, sep))
  {
    JoinPrefix(parts, sep);
    var k :| 0 <= k < |parts[0]| && !IsTrimSpace(parts[0][k]);
    assert Join(parts, sep)[k] == parts[0][k];
  }

  /** The first part of a join is a prefix of it. */
  lemma JoinPrefix(parts: seq<string>, sep: char)
    requires |parts| > 0
    ensures parts[0] <= Join(parts, sep)
  {
  }

  /** Editing a recipe and saving without touching the ingredients box:
      each ingredient comes back with its name, unit and notes, a positive
      quantity as it was and any other as 0, and no id. */
  lemma IngredientsTextRoundTrip(items: seq<Ingredient>, codec: QuantityCodec)
    requires AllLineSafe(items, codec)
    ensures IngredientsText(WrapAll(items), codec).Ok?
    ensures ParseIngredients(Some(IngredientsText(WrapAll(items), codec).value), codec) == Map(items, Reparsed)
  {
    LinesOfWrapped(items, codec);
    var lines := IngredientLines(WrapAll(items), codec).value;
    assert IngredientsText(WrapAll(items), codec) == Ok(Join(lines, '\n'));
    IngredientLinesRoundTrip(items, lines, codec);
    if |items| > 0 {
      LinesUsable(items, lines, codec);
      ParseJoinedLines(lines, codec);
    }
  }

  /** Text joined from single, non-blank lines is read line by line. */
  lemma ParseJoinedLines(lines: seq<string>, codec: QuantityCodec)
    requires |lines| > 0
    requires forall k :: 0 <= k < |lines| ==> '\n' !in lines[k] && !TrimsToEmpty(lines[k])
    ensures ParseIngredients(Some(Join(lines, '\n')), codec) == ParseIngredientLines(lines, codec)
  {
    JoinNotBlank(lines, '\n');
    SplitJoin(lines, '\n');
  }

  /** Steps written one per line and read back are the steps, when each is
      trimmed, non-empty and free of line breaks. */
  lemma InstructionsTextRoundTrip(steps: seq<string>)
    requires forall k :: 0 <= k < |steps| ==> steps[k] != [] && IsTrimmed(steps[k]) && '\n' !in steps[k]
    ensures ParseInstructions(Some(InstructionsText(WrapAll(steps)))) == steps
  {
    assert Map(WrapAll(steps), NullText) == steps;
    if |steps| > 0 {
      assert InstructionsText(WrapAll(steps)) == Join(steps, '\n');
      assert !TrimsToEmpty(steps[0]) by {
        assert !IsTrimSpace(steps[0][0]);
      }
      JoinNotBlank(steps, '\n');
      SplitJoin(steps, '\n');
      NonBlankLinesOfClean(steps);
    }
  }

  lemma {:induction false} NonBlankLinesOfClean(steps: seq<string>)
    requires forall k :: 0 <= k < |steps| ==> steps[k] != [] && IsTrimmed(steps[k])
    ensures NonBlankLines(steps) == steps
    decreases |steps|
  {
    if |steps| > 0 {
      NonBlankLinesOfClean(steps[1..]);
      TrimOfTrimmed(steps[0]);
      assert steps == [steps[0]] + steps[1..];
    }
  }
}
