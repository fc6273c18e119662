/** RecipeServiceImpl: the service the screens call, over RecipeDaoImpl. It
    adds the session's user to listings, and the search and category queries. */
module RecipeService {
  import opened Common
  import opened Seqs
  import opened Text
  import opened IngredientModel
  import opened RecipeModel
  import opened RecipeTables
  import opened RecipeStore
  import UserStore
  import RecipeDao

  /** SessionManager's state, passed in. */
  datatype Session = Session(loggedIn: bool, currentUser: Option<UserStore.User>)

  const NullRecipeMessage := "Recipe cannot be null"
  const NullIdMessage := "Recipe ID cannot be null"

  /** The user id getAllRecipes scopes the listing to: the current user's id
      when someone is signed in, null otherwise. */
  function SessionUserId(s: Session): (u: Option<int>)
    ensures u.Some? ==> s.loggedIn && s.currentUser.Some? && s.currentUser.value.id == u
    ensures !s.loggedIn || s.currentUser.None? ==> u.None?
  {
    if s.loggedIn && s.currentUser.Some? then s.currentUser.value.id else None
  }

  /** `getAllRecipes()`: the visibility-scoped listing. */
  function GetAllRecipes(t: Tables, s: Session): (rs: seq<Recipe>)
    ensures IsSubseq(rs, RecipeDao.FindAll(t))
    ensures forall row :: row in t.recipes ==> (Load(t, row, true) in rs <==> RecipeDao.Visible(row, SessionUserId(s)))
  {
    RecipeDao.FindAllVisibleForUser(t, SessionUserId(s))
  }

  /** `getRecipeById(id)`: empty for a null id, with no query. */
  function GetRecipeById(t: Tables, id: Option<int>): (r: Option<Recipe>)
    ensures id.None? ==> r.None?
    ensures r.Some? ==> r.value.id == id
    ensures id.Some? ==> (r.Some? <==> exists row :: row in t.recipes && row.id == id.value)
  {
    if id.None? then None else RecipeDao.FindById(t, id)
  }

  /** `saveRecipe(recipe)`: refuses null itself, then defers to the DAO. */
  function SaveRecipe(t: Tables, r: Option<Recipe>, fault: Option<nat>): (out: SaveOutcome)
    ensures r.None? ==> out == Rejected(IllegalArgument(NullRecipeMessage))
    ensures r.Some? ==> out == RecipeDao.Save(t, r, fault)
  {
    if r.None? then Rejected(IllegalArgument(NullRecipeMessage)) else RecipeDao.Save(t, r, fault)
  }

  /** `deleteRecipe(id)`: a null id throws here, where the DAO would do nothing. */
  function DeleteRecipe(t: Tables, id: Option<int>, fault: Option<nat>): (out: WriteOutcome)
    ensures id.None? ==> out == Aborted(t, IllegalArgument(NullIdMessage))
    ensures id.Some? ==> out == RecipeDao.Delete(t, id, fault)
  {
    if id.None? then Aborted(t, IllegalArgument(NullIdMessage)) else RecipeDao.Delete(t, id, fault)
  }

  /** The service and the DAO disagree on a null id. */
  lemma NullIdDeleteDiffers(t: Tables, fault: Option<nat>)
    ensures DeleteRecipe(t, None, fault).Aborted?
    ensures RecipeDao.Delete(t, None, fault) == Done(t)
  {
  }

  // ---------------------------------------------------------------------
  // searchRecipes
  // ---------------------------------------------------------------------

  /** A nullable text field contains the (lowercased) query once lowercased. */
  predicate FieldContains(f: Option<string>, q: string) {
    f.Some? && Contains(Lower(f.value), q)
  }

  predicate SomeIngredientNamed(items: seq<Option<Ingredient>>, q: string) {
    exists k :: 0 <= k < |items| && items[k].Some? && FieldContains(items[k].value.name, q)
  }

  predicate SomeInstructionContains(items: seq<Option<string>>, q: string) {
    exists k :: 0 <= k < |items| && FieldContains(items[k], q)
  }

  /** The search filter as RecipeServiceImpl.searchRecipes writes it: a
      `matches` flag set by the title test, then, for a query longer than 2
      UTF-16 code units, by the description, ingredient and instruction tests
      in turn while it is still false. */
  function Matches(r: Recipe, q: string): (m: bool)
    ensures Utf16Length(q) <= 2 ==> (m <==> FieldContains(r.title, q))
    ensures Utf16Length(q) > 2 ==> (m <==> FieldContains(r.title, q) || FieldContains(r.description, q)
                                           || SomeIngredientNamed(r.ingredients.items, q)
                                           || SomeInstructionContains(r.instructions.items, q))
  {
    var shortQuery := Utf16Length(q) <= 2;
    var m1 := if r.title.Some? then Contains(Lower(r.title.value), q) else false;
    var m2 := if !m1 && !shortQuery && r.description.Some? then Contains(Lower(r.description.value), q) else m1;
    var m3 := if !m2 && !shortQuery then SomeIngredientNamed(r.ingredients.items, q) else m2;
    var m4 := if !m3 && !shortQuery then SomeInstructionContains(r.instructions.items, q) else m3;
    m4
  }

  /** A query of two chars, one of them supplementary, is three UTF-16 code
      units long, so it is not short and the description is searched. */
  lemma SupplementaryQueryIsNotShort()
    ensures var r := NewRecipe().(title := Some("x"), description := Some("a\U{1F600} pie"));
            Matches(r, "a\U{1F600}")
  {
    var q := "a\U{1F600}";
    assert Utf16Length(q[1..]) == 2;
    var d := Lower("a\U{1F600} pie");
    assert d[0] == 'a' && d[1] == '\U{1F600}';
    assert q <= d[0..];
  }

  function MatchesQuery(q: string): Recipe -> bool {
    (r: Recipe) => Matches(r, q)
  }

  /** `.distinct()` on a list of separately loaded recipes: a recipe is
      dropped when its id is non-null and an earlier kept recipe has the same
      id (BaseModel.equals with the later recipe as receiver); `seen` holds the
      ids kept so far. */
  function DistinctFrom(xs: seq<Recipe>, seen: set<int>): (r: seq<Recipe>)
    ensures IsSubseq(r, xs)
    ensures forall x :: x in r && x.id.Some? ==> x.id.value !in seen
    ensures forall i, j :: 0 <= i < j < |r| && r[j].id.Some? ==> r[i].id != r[j].id
    ensures forall x :: x in xs && x.id.None? ==> x in r
    ensures forall x :: x in xs && x.id.Some? && x.id.value !in seen ==> exists y :: y in r && y.id == x.id
    ensures forall k :: (0 <= k < |xs| && xs[k].id.Some? && xs[k].id.value !in seen
                         && (forall j :: 0 <= j < k ==> xs[j].id != xs[k].id)) ==> xs[k] in r
    decreases |xs|
  {
    if |xs| == 0 then []
    else
      var x := xs[0];
      if x.id.None? then
        var rest := DistinctFrom(xs[1..], seen);
        DistinctStep(xs, seen, rest, seen, true);
        [x] + rest
      else if x.id.value in seen then
        var rest := DistinctFrom(xs[1..], seen);
        DistinctStep(xs, seen, rest, seen, false);
        rest
      else
        var rest := DistinctFrom(xs[1..], seen + {x.id.value});
        DistinctStep(xs, seen, rest, seen + {x.id.value}, true);
        [x] + rest
  }

  /** The inductive step of DistinctFrom: how keeping or dropping the head
      carries the facts about the rest over to the whole list. */
  lemma DistinctStep(xs: seq<Recipe>, seen: set<int>, rest: seq<Recipe>, seen': set<int>, keep: bool)
    requires |xs| > 0
    requires keep ==> (xs[0].id.None? && seen' == seen) || (xs[0].id.Some? && xs[0].id.value !in seen && seen' == seen + {xs[0].id.value})
    requires !keep ==> xs[0].id.Some? && xs[0].id.value in seen && seen' == seen
    requires IsSubseq(rest, xs[1..])
    requires forall x :: x in rest && x.id.Some? ==> x.id.value !in seen'
    requires forall i, j :: 0 <= i < j < |rest| && rest[j].id.Some? ==> rest[i].id != rest[j].id
    requires forall x :: x in xs[1..] && x.id.None? ==> x in rest
    requires forall x :: x in xs[1..] && x.id.Some? && x.id.value !in seen' ==> exists y :: y in rest && y.id == x.id
    requires forall k :: (0 <= k < |xs[1..]| && xs[1..][k].id.Some? && xs[1..][k].id.value !in seen'
                          && (forall j :: 0 <= j < k ==> xs[1..][j].id != xs[1..][k].id)) ==> xs[1..][k] in rest
    ensures var r := if keep then [xs[0]] + rest else rest;
            && IsSubseq(r, xs)
            && (forall x :: x in r && x.id.Some? ==> x.id.value !in seen)
            && (forall i, j :: 0 <= i < j < |r| && r[j].id.Some? ==> r[i].id != r[j].id)
            && (forall x :: x in xs && x.id.None? ==> x in r)
            && (forall x :: x in xs && x.id.Some? && x.id.value !in seen ==> exists y :: y in r && y.id == x.id)
            && (forall k :: (0 <= k < |xs| && xs[k].id.Some? && xs[k].id.value !in seen
                             && (forall j :: 0 <= j < k ==> xs[j].id != xs[k].id)) ==> xs[k] in r)
  {
    StepSubseq(xs, rest, keep);
    StepDistinct(xs, seen, rest, seen', keep);
    StepCovers(xs, seen, rest, seen', keep);
  }

  lemma StepSubseq(xs: seq<Recipe>, rest: seq<Recipe>, keep: bool)
    requires |xs| > 0 && IsSubseq(rest, xs[1..])
    ensures IsSubseq(if keep then [xs[0]] + rest else rest, xs)
  {
    var r := if keep then [xs[0]] + rest else rest;
    assert xs == [xs[0]] + xs[1..];
    if keep {
      assert r[0] == xs[0] && r[1..] == rest;
    }
  }

  lemma StepDistinct(xs: seq<Recipe>, seen: set<int>, rest: seq<Recipe>, seen': set<int>, keep: bool)
    requires |xs| > 0
    requires keep ==> (xs[0].id.None? && seen' == seen) || (xs[0].id.Some? && xs[0].id.value !in seen && seen' == seen + {xs[0].id.value})
    requires !keep ==> seen' == seen
    requires forall x :: x in rest && x.id.Some? ==> x.id.value !in seen'
    requires forall i, j :: 0 <= i < j < |rest| && rest[j].id.Some? ==> rest[i].id != rest[j].id
    ensures var r := if keep then [xs[0]] + rest else rest;
            && (forall x :: x in r && x.id.Some? ==> x.id.value !in seen)
            && (forall i, j :: 0 <= i < j < |r| && r[j].id.Some? ==> r[i].id != r[j].id)
  {
    if keep {
      var r := [xs[0]] + rest;
      forall i, j | 0 <= i < j < |r| && r[j].id.Some? ensures r[i].id != r[j].id {
        if i == 0 {
          assert r[j] == rest[j - 1];
          assert rest[j - 1] in rest;
        } else {
          assert r[i] == rest[i - 1] && r[j] == rest[j - 1];
        }
      }
    }
  }

  lemma StepCovers(xs: seq<Recipe>, seen: set<int>, rest: seq<Recipe>, seen': set<int>, keep: bool)
    requires |xs| > 0
    requires keep ==> (xs[0].id.None? && seen' == seen) || (xs[0].id.Some? && xs[0].id.value !in seen && seen' == seen + {xs[0].id.value})
    requires !keep ==> xs[0].id.Some? && xs[0].id.value in seen && seen' == seen
    requires forall x :: x in xs[1..] && x.id.None? ==> x in rest
    requires forall x :: x in xs[1..] && x.id.Some? && x.id.value !in seen' ==> exists y :: y in rest && y.id == x.id
    requires forall k :: (0 <= k < |xs[1..]| && xs[1..][k].id.Some? && xs[1..][k].id.value !in seen'
                          && (forall j :: 0 <= j < k ==> xs[1..][j].id != xs[1..][k].id)) ==> xs[1..][k] in rest
    ensures var r := if keep then [xs[0]] + rest else rest;
            && (forall x :: x in xs && x.id.None? ==> x in r)
            && (forall x :: x in xs && x.id.Some? && x.id.value !in seen ==> exists y :: y in r && y.id == x.id)
            && (forall k :: (0 <= k < |xs| && xs[k].id.Some? && xs[k].id.value !in seen
                             && (forall j :: 0 <= j < k ==> xs[j].id != xs[k].id)) ==> xs[k] in r)
  {
    var r := if keep then [xs[0]] + rest else rest;
    assert xs == [xs[0]] + xs[1..];
    forall k | 0 <= k < |xs| && xs[k].id.Some? && xs[k].id.value !in seen
               && (forall j :: 0 <= j < k ==> xs[j].id != xs[k].id)
      ensures xs[k] in r
    {
      if k > 0 {
        assert xs[1..][k - 1] == xs[k];
        assert forall j :: 0 <= j < k - 1 ==> xs[1..][j] == xs[j + 1];
        assert xs[0].id != xs[k].id;
      }
    }
    forall x | x in xs && x.id.Some? && x.id.value !in seen ensures exists y :: y in r && y.id == x.id {
      if x == xs[0] {
        assert xs[0] in r;
      } else if keep && xs[0].id == x.id {
        assert xs[0] in r;
      } else {
        assert x in xs[1..];
      }
    }
  }

  /** `.distinct()` */
  function Distinct(xs: seq<Recipe>): (r: seq<Recipe>)
    ensures IsSubseq(r, xs)
    ensures forall i, j :: 0 <= i < j < |r| && r[j].id.Some? ==> r[i].id != r[j].id
    ensures forall x :: x in xs && x.id.None? ==> x in r
    ensures forall x :: x in xs && x.id.Some? ==> exists y :: y in r && y.id == x.id
    ensures forall k :: (0 <= k < |xs| && xs[k].id.Some?
                         && (forall j :: 0 <= j < k ==> xs[j].id != xs[k].id)) ==> xs[k] in r
  {
    DistinctFrom(xs, {})
  }

  /** No non-null id occurs twice. */
  predicate IdsDistinct(xs: seq<Recipe>) {
    forall i, j :: 0 <= i < j < |xs| && xs[j].id.Some? ==> xs[i].id != xs[j].id
  }

  /** Ids taken: none of the non-null ids of `xs` is in `seen`. */
  predicate IdsFresh(xs: seq<Recipe>, seen: set<int>) {
    forall x :: x in xs && x.id.Some? ==> x.id.value !in seen
  }

  /** Dropping the head of a list with distinct, fresh ids leaves one whose
      ids are distinct and fresh even with the head's id taken. */
  lemma DistinctTail(xs: seq<Recipe>, seen: set<int>)
    requires |xs| > 0 && IdsDistinct(xs) && IdsFresh(xs, seen)
    ensures IdsDistinct(xs[1..])
    ensures IdsFresh(xs[1..], seen)
    ensures xs[0].id.Some? ==> IdsFresh(xs[1..], seen + {xs[0].id.value})
  {
    var rest := xs[1..];
    forall i, j | 0 <= i < j < |rest| && rest[j].id.Some? ensures rest[i].id != rest[j].id {
      assert rest[i] == xs[i + 1] && rest[j] == xs[j + 1];
    }
    if xs[0].id.Some? {
      forall x | x in rest && x.id.Some? ensures x.id.value !in seen + {xs[0].id.value} {
        var k :| 0 <= k < |rest| && rest[k] == x;
        assert xs[k + 1] == x;
      }
    }
  }

  function HasId(): Recipe -> bool {
    (x: Recipe) => x.id.Some?
  }

  function NoId(): Recipe -> bool {
    (x: Recipe) => x.id.None?
  }

  /** The id of `x` is already taken: it is non-null, and it is in `seen` or
      some recipe of `xs` has it. */
  predicate IdTaken(xs: seq<Recipe>, seen: set<int>, x: Recipe) {
    x.id.Some? && (x.id.value in seen || exists k :: 0 <= k < |xs| && xs[k].id == x.id)
  }

  /** distinct() read from the end: a recipe appended to the list is kept,
      and goes last, exactly when its id is null or not yet taken. Together
      with DistinctFrom([], seen) == [] this fixes the whole result: the
      first recipe of each id and every null-id recipe, in list order. */
  lemma {:induction false} DistinctFromAppend(xs: seq<Recipe>, x: Recipe, seen: set<int>)
    ensures DistinctFrom(xs + [x], seen)
            == if IdTaken(xs, seen, x) then DistinctFrom(xs, seen) else DistinctFrom(xs, seen) + [x]
    decreases |xs|
  {
    if |xs| == 0 {
      assert xs + [x] == [x];
      assert [x][1..] == [];
    } else {
      var h := xs[0];
      var keepHead := h.id.None? || h.id.value !in seen;
      var seen' := if h.id.Some? && h.id.value !in seen then seen + {h.id.value} else seen;
      var rest, rest' := DistinctFrom(xs[1..], seen'), DistinctFrom(xs[1..] + [x], seen');
      assert (xs + [x])[0] == h && (xs + [x])[1..] == xs[1..] + [x];
      var whole, base := DistinctFrom(xs + [x], seen), DistinctFrom(xs, seen);
      assert whole == if keepHead then [h] + rest' else rest';
      assert base == if keepHead then [h] + rest else rest;
      DistinctFromAppend(xs[1..], x, seen');
      IdTakenStep(xs, seen, seen', x);
      var add := !IdTaken(xs, seen, x);
      assert rest' == if add then rest + [x] else rest;
      if keepHead {
        ConsSnocStep(h, rest, rest', add, x);
      }
    }
  }

  /** Putting the same head on a list and on the list with `x` appended or not. */
  lemma ConsSnocStep<T>(h: T, rest: seq<T>, rest': seq<T>, add: bool, x: T)
    requires rest' == if add then rest + [x] else rest
    ensures [h] + rest' == if add then ([h] + rest) + [x] else [h] + rest
  {
  }

  /** Taking the head's id into `seen` and dropping the head leaves the
      same ids taken. */
  lemma IdTakenStep(xs: seq<Recipe>, seen: set<int>, seen': set<int>, x: Recipe)
    requires |xs| > 0
    requires seen' == if xs[0].id.Some? && xs[0].id.value !in seen then seen + {xs[0].id.value} else seen
    ensures IdTaken(xs[1..], seen', x) <==> IdTaken(xs, seen, x)
  {
    if IdTaken(xs, seen, x) && x.id.value !in seen {
      var k :| 0 <= k < |xs| && xs[k].id == x.id;
      if k > 0 {
        assert xs[1..][k - 1] == xs[k];
      }
    }
    if IdTaken(xs[1..], seen', x) && x.id.value !in seen' {
      var k :| 0 <= k < |xs[1..]| && xs[1..][k].id == x.id;
      assert xs[k + 1] == xs[1..][k];
    }
  }

  /** distinct() keeps every recipe without an id, in order and with its
      repetitions: two null-id recipes are never equal. */
  lemma {:induction false} DistinctFromKeepsNullIds(xs: seq<Recipe>, seen: set<int>)
    ensures Keep(DistinctFrom(xs, seen), NoId()) == Keep(xs, NoId())
    decreases |xs|
  {
    if |xs| > 0 {
      var h := xs[0];
      var seen' := if h.id.Some? && h.id.value !in seen then seen + {h.id.value} else seen;
      var rest := DistinctFrom(xs[1..], seen');
      DistinctFromKeepsNullIds(xs[1..], seen');
      if h.id.None? || h.id.value !in seen {
        assert ([h] + rest)[0] == h && ([h] + rest)[1..] == rest;
      }
    }
  }

  /** Two recipes with different ids: distinct() keeps the first occurrence
      of each, in list order. */
  lemma DistinctKeepsFirstOccurrences(a: Recipe, b: Recipe)
    requires a.id.Some? && b.id.Some? && a.id != b.id
    ensures Distinct([a, b, a]) == [a, b]
  {
    var ab := [a, b];
    assert ab + [a] == [a, b, a];
    assert IdsDistinct(ab) && IdsFresh(ab, {}) by {
      forall x | x in ab ensures x == a || x == b {
      }
    }
    DistinctOfDistinct(ab, {});
    assert IdTaken(ab, {}, a) by {
      assert ab[0].id == a.id;
    }
    DistinctFromAppend(ab, a, {});
  }

  /** Two copies of a recipe without an id both stay. */
  lemma DistinctKeepsNullIdCopies(n: Recipe)
    requires n.id.None?
    ensures Distinct([n, n]) == [n, n]
  {
    DistinctOfDistinct([n, n], {});
  }

  /** On a list whose ids are already distinct, distinct() changes nothing. */
  lemma {:induction false} DistinctOfDistinct(xs: seq<Recipe>, seen: set<int>)
    requires IdsDistinct(xs) && IdsFresh(xs, seen)
    ensures DistinctFrom(xs, seen) == xs
    decreases |xs|
  {
    if |xs| > 0 {
      var rest := xs[1..];
      DistinctTail(xs, seen);
      var seen' := if xs[0].id.None? then seen else seen + {xs[0].id.value};
      DistinctOfDistinct(rest, seen');
      DistinctFromKeepsFreshHead(xs, seen);
      assert xs == [xs[0]] + rest;
    }
  }

  /** A head whose id is null or not yet taken is kept, and the rest is
      de-duplicated with its id taken. */
  lemma DistinctFromKeepsFreshHead(xs: seq<Recipe>, seen: set<int>)
    requires |xs| > 0 && (xs[0].id.None? || xs[0].id.value !in seen)
    ensures DistinctFrom(xs, seen)
         == [xs[0]] + DistinctFrom(xs[1..], if xs[0].id.None? then seen else seen + {xs[0].id.value})
  {
  }

  /** `searchRecipes(query)`: a null or blank query is getAllRecipes();
      otherwise the unscoped findAll() filtered by the trimmed, lowercased
      query, then distinct(). */
  function SearchRecipes(t: Tables, s: Session, query: Option<string>): (rs: seq<Recipe>)
    ensures query.None? || TrimsToEmpty(query.value) ==> rs == GetAllRecipes(t, s)
    ensures IsSubseq(rs, RecipeDao.FindAll(t))
    ensures query.Some? && !TrimsToEmpty(query.value) ==>
              && (forall x :: x in rs ==> Matches(x, Trim(Lower(query.value))))
              && (forall i, j :: 0 <= i < j < |rs| && rs[j].id.Some? ==> rs[i].id != rs[j].id)
  {
    if query.None? || TrimsToEmpty(query.value) then GetAllRecipes(t, s)
    else
      var q := Trim(Lower(query.value));
      var all := RecipeDao.FindAll(t);
      var kept := Keep(all, MatchesQuery(q));
      SubseqTrans(Distinct(kept), kept, all);
      SubseqMembers(Distinct(kept), kept);
      Distinct(kept)
  }

  /** On a well-formed store distinct() removes nothing: a non-blank search
      is exactly the matching recipes of findAll(), in storage order, whatever
      their visibility. */
  lemma SearchIsFilterOfFindAll(t: Tables, s: Session, query: string)
    requires WellFormed(t)
    requires !TrimsToEmpty(query)
    ensures SearchRecipes(t, s, Some(query)) == Keep(RecipeDao.FindAll(t), MatchesQuery(Trim(Lower(query))))
  {
    var all := RecipeDao.FindAll(t);
    var kept := Keep(all, MatchesQuery(Trim(Lower(query))));
    assert SearchRecipes(t, s, Some(query)) == Distinct(kept);
    FindAllIdsDistinct(t);
    UniqueIdsKept(all, kept);
    DistinctOfDistinct(kept, {});
  }

  /** In a well-formed store findAll() never lists an id twice. */
  lemma FindAllIdsDistinct(t: Tables)
    requires WellFormed(t)
    ensures var all := RecipeDao.FindAll(t);
            forall i, j :: 0 <= i < j < |all| ==> all[i].id != all[j].id
  {
    var all := RecipeDao.FindAll(t);
    forall i, j | 0 <= i < j < |all| ensures all[i].id != all[j].id {
      assert all[i].id == Some(t.recipes[i].id) && all[j].id == Some(t.recipes[j].id);
    }
  }

  /** A subsequence of recipes with distinct ids has distinct ids. */
  lemma {:induction false} UniqueIdsKept(a: seq<Recipe>, b: seq<Recipe>)
    requires IsSubseq(b, a)
    requires forall i, j :: 0 <= i < j < |a| ==> a[i].id != a[j].id
    ensures forall i, j :: 0 <= i < j < |b| && b[j].id.Some? ==> b[i].id != b[j].id
    decreases |a|
  {
    if |b| > 0 {
      var a' := a[1..];
      assert forall i, j :: 0 <= i < j < |a'| ==> a'[i].id != a'[j].id by {
        forall i, j | 0 <= i < j < |a'| ensures a'[i].id != a'[j].id {
          assert a'[i] == a[i + 1] && a'[j] == a[j + 1];
        }
      }
      if b[0] == a[0] && IsSubseq(b[1..], a') {
        UniqueIdsKept(a', b[1..]);
        SubseqMembers(b[1..], a');
        forall i, j | 0 <= i < j < |b| && b[j].id.Some? ensures b[i].id != b[j].id {
          if i == 0 {
            assert b[j] == b[1..][j - 1];
            assert b[j] in a';
            var k :| 0 <= k < |a'| && a'[k] == b[j];
            assert a[k + 1] == b[j];
          } else {
            assert b[i] == b[1..][i - 1] && b[j] == b[1..][j - 1];
          }
        }
      } else {
        UniqueIdsKept(a', b);
      }
    }
  }

  /** A search ignores visibility: a PRIVATE recipe of another user that
      matches the query is in the result, though getAllRecipes() hides it. */
  lemma SearchSeesPrivateRecipes(t: Tables, s: Session, query: string, row: RecipeRow)
    requires WellFormed(t)
    requires !TrimsToEmpty(query)
    requires row in t.recipes && !RecipeDao.Visible(row, SessionUserId(s))
    requires Matches(Load(t, row, true), Trim(Lower(query)))
    ensures Load(t, row, true) in SearchRecipes(t, s, Some(query))
    ensures Load(t, row, true) !in GetAllRecipes(t, s)
  {
    SearchIsFilterOfFindAll(t, s, query);
    MapMember(t.recipes, LoadWith(t, true), row);
  }

  // ---------------------------------------------------------------------
  // getRecipesByCategory
  // ---------------------------------------------------------------------

  function CategoryIs(lowered: string): Recipe -> bool {
    (r: Recipe) => r.category.Some? && Lower(r.category.value) == lowered
  }

  /** `getRecipesByCategory(category)`: a null or blank argument is
      getAllRecipes(); otherwise the unscoped findAll() recipes whose
      lowercased category equals the lowercased argument, which is not trimmed. */
  function GetRecipesByCategory(t: Tables, s: Session, category: Option<string>): (rs: seq<Recipe>)
    ensures category.None? || TrimsToEmpty(category.value) ==> rs == GetAllRecipes(t, s)
    ensures category.Some? && !TrimsToEmpty(category.value) ==>
              && IsSubseq(rs, RecipeDao.FindAll(t))
              && (forall x :: x in RecipeDao.FindAll(t) ==>
                    (x in rs <==> x.category.Some? && EqualsIgnoreCase(x.category.value, category.value)))
  {
    if category.None? || TrimsToEmpty(category.value) then GetAllRecipes(t, s)
    else Keep(RecipeDao.FindAll(t), CategoryIs(Lower(category.value)))
  }

  /** Because the argument is not trimmed, a category with a trailing space
      finds no recipe stored under the bare name. */
  lemma PaddedCategoryFindsNothingUnpadded(t: Tables, s: Session, category: string)
    requires !TrimsToEmpty(category)
    ensures forall x :: x in GetRecipesByCategory(t, s, Some(category + " ")) ==> x.category != Some(category)
  {
    LowerAppend(category, " ");
    assert !TrimsToEmpty(category + " ") by {
      var k :| 0 <= k < |category| && !IsTrimSpace(category[k]);
      assert (category + " ")[k] == category[k];
    }
  }
}
