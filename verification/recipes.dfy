/** The recipe serializer's write path: the checks on the requested tag and
    ingredient lists, the shared IngredientRecipe rows, and recipe
    creation and update.

    A request names its ingredients as lines `{id, amount}`. Each line is
    stored as a shared IngredientRecipe row holding exactly that
    (ingredient, amount) pair, reused when one already exists. */
module RecipeWrites {
  import opened Results
  import opened Seqs
  import opened Base64Image
  import opened Models

  /** One requested ingredient line. */
  datatype Line = Line(ingredient: IngredientId, amount: int)

  /** The scalar fields of a recipe request. */
  datatype RecipeFields = RecipeFields(name: string, text: string, image: ImageInput, cookingTime: int)

  // ---------------------------------------------------------------------
  // validate_ingredients

  /** An earlier line already names the ingredient of line `i`. */
  predicate NamedBefore(lines: seq<Line>, i: nat)
    requires i < |lines|
  {
    exists j | 0 <= j < i :: lines[j].ingredient == lines[i].ingredient
  }

  /** Line `i` passes the three per-line checks, in the source's order: a
      stored ingredient, not named by an earlier line, amount at least 1. */
  predicate LinePasses(catalog: map<IngredientId, Ingredient>, lines: seq<Line>, i: nat)
    requires i < |lines|
  {
    lines[i].ingredient in catalog && !NamedBefore(lines, i) && lines[i].amount >= 1
  }

  /** Line `k` is the first line that fails. */
  predicate FirstFailing(catalog: map<IngredientId, Ingredient>, lines: seq<Line>, k: nat)
    requires k < |lines|
  {
    !LinePasses(catalog, lines, k) && forall j | 0 <= j < k :: LinePasses(catalog, lines, j)
  }

  /** The error raised on a failing line: the first of its checks that fails. */
  function LineError(catalog: map<IngredientId, Ingredient>, lines: seq<Line>, k: nat): Error
    requires k < |lines|
  {
    if lines[k].ingredient !in catalog then NotFound
    else if NamedBefore(lines, k) then BadRequest(DuplicateIngredient)
    else BadRequest(AmountTooSmall)
  }

  /** The ingredient ids the lines name, in order. */
  function IngredientIds(lines: seq<Line>): (ids: seq<IngredientId>)
    ensures |ids| == |lines|
    ensures forall i | 0 <= i < |lines| :: ids[i] == lines[i].ingredient
  {
    seq(|lines|, i requires 0 <= i < |lines| => lines[i].ingredient)
  }

  /** An acceptable ingredient list, stated without reference to the order
      of the checks: non-empty, stored ingredients, each named once, every
      amount at least 1. */
  ghost predicate LinesValid(catalog: map<IngredientId, Ingredient>, lines: seq<Line>) {
    && |lines| > 0
    && (forall i | 0 <= i < |lines| :: lines[i].ingredient in catalog && lines[i].amount >= 1)
    && NoDuplicates(IngredientIds(lines))
  }

  /** The loop of `validate_ingredients` from line `i` on; `seen` holds the
      ingredients of the lines before `i`, which all passed. */
  function CheckLines(catalog: map<IngredientId, Ingredient>, lines: seq<Line>, i: nat, seen: set<IngredientId>): (r: Option<Error>)
    requires i <= |lines|
    requires seen == set j | 0 <= j < i :: lines[j].ingredient
    requires forall j | 0 <= j < i :: LinePasses(catalog, lines, j)
    ensures r.None? <==> forall j | i <= j < |lines| :: LinePasses(catalog, lines, j)
    ensures r.Some? ==> exists k | i <= k < |lines| ::
              FirstFailing(catalog, lines, k) && r.value == LineError(catalog, lines, k)
    decreases |lines| - i
  {
    if i == |lines| then None
    else
      var line := lines[i];
      assert line.ingredient in seen <==> NamedBefore(lines, i);
      assert !LinePasses(catalog, lines, i) ==> FirstFailing(catalog, lines, i);
      if line.ingredient !in catalog then Some(NotFound)
      else if line.ingredient in seen then Some(BadRequest(DuplicateIngredient))
      else if line.amount < 1 then Some(BadRequest(AmountTooSmall))
      else
        assert seen + {line.ingredient} == set j | 0 <= j < i + 1 :: lines[j].ingredient;
        CheckLines(catalog, lines, i + 1, seen + {line.ingredient})
  }

  /** Checking line by line in order accepts exactly the acceptable lists. */
  lemma AllPassIffValid(catalog: map<IngredientId, Ingredient>, lines: seq<Line>)
    requires |lines| > 0
    ensures (forall i | 0 <= i < |lines| :: LinePasses(catalog, lines, i)) <==> LinesValid(catalog, lines)
  {
    var ids := IngredientIds(lines);
    if forall i | 0 <= i < |lines| :: LinePasses(catalog, lines, i) {
      forall i, j | 0 <= i < j < |ids|
        ensures ids[i] != ids[j]
      {
        assert LinePasses(catalog, lines, j);
        if ids[i] == ids[j] {
          assert lines[i].ingredient == lines[j].ingredient;
          assert NamedBefore(lines, j);
        }
      }
      assert NoDuplicates(ids);
      forall i | 0 <= i < |lines|
        ensures lines[i].ingredient in catalog && lines[i].amount >= 1
      {
        assert LinePasses(catalog, lines, i);
      }
    }
    if LinesValid(catalog, lines) {
      assert forall i | 0 <= i < |lines| :: LinePasses(catalog, lines, i);
    }
  }

  /** `validate_ingredients`: an empty list is refused; otherwise the first
      failing line decides the error; an accepted list comes back as is. */
  function ValidateIngredients(catalog: map<IngredientId, Ingredient>, lines: seq<Line>): (r: Result<seq<Line>>)
    ensures |lines| == 0 ==> r == Err(BadRequest(EmptyIngredients))
    ensures r.Ok? <==> LinesValid(catalog, lines)
    ensures r.Ok? ==> r.value == lines
    ensures r.Err? && |lines| > 0 ==> exists k | 0 <= k < |lines| ::
              FirstFailing(catalog, lines, k) && r.error == LineError(catalog, lines, k)
  {
    if |lines| == 0 then Err(BadRequest(EmptyIngredients))
    else
      AllPassIffValid(catalog, lines);
      match CheckLines(catalog, lines, 0, {})
      case Some(e) => Err(e)
      case None => Ok(lines)
  }

  // ---------------------------------------------------------------------
  // validate_tags

  /** `validate_tags`: a list whose set of ids is smaller than the list is
      refused; exactly the duplicate-free lists are accepted, unchanged. */
  function ValidateTags(tagIds: seq<TagId>): (r: Result<seq<TagId>>)
    ensures r.Ok? <==> NoDuplicates(tagIds)
    ensures r.Ok? ==> r.value == tagIds
    ensures r.Err? ==> r.error == BadRequest(DuplicateTag)
  {
    NoDuplicatesIffFullSet(tagIds);
    if |Elements(tagIds)| != |tagIds| then Err(BadRequest(DuplicateTag)) else Ok(tagIds)
  }

  // ---------------------------------------------------------------------
  // The IngredientRecipe rows

  ghost predicate KeysBelow(pool: Pool) {
    forall k | k in pool.rows :: k < pool.next
  }

  /** The (ingredient, amount) pairs the rows `ids` hold. */
  function PairsOf(rows: map<PortionId, Portion>, ids: set<PortionId>): set<Portion> {
    set k | k in ids && k in rows :: rows[k]
  }

  /** The (ingredient, amount) pairs the lines ask for. */
  function LinePortions(lines: seq<Line>): set<Portion> {
    set l | l in lines :: Portion(l.ingredient, l.amount)
  }

  /** A row below id `n` that holds `want`, searching from the top. */
  function FindPortion(rows: map<PortionId, Portion>, want: Portion, n: nat): (r: Option<PortionId>)
    ensures r.Some? ==> r.value < n && r.value in rows && rows[r.value] == want
    ensures r.None? ==> forall k | k < n && k in rows :: rows[k] != want
  {
    if n == 0 then None
    else if n - 1 in rows && rows[n - 1] == want then Some(n - 1)
    else FindPortion(rows, want, n - 1)
  }

  /** The id counters run ahead of every stored row and recipe, as the
      database sequences do; `Valid` implies it. */
  ghost predicate Numbered(s: Store) {
    && KeysBelow(s.pool)
    && (forall id | id in s.recipes :: id < s.nextRecipe)
  }

  /** `get_or_create` on the pair: the existing row when there is one,
      otherwise a new row under the next id. */
  function GetOrCreate(pool: Pool, want: Portion): (r: (Pool, PortionId))
    requires KeysBelow(pool)
    ensures KeysBelow(r.0) && Extends(r.0, pool)
    ensures r.1 in r.0.rows && r.0.rows[r.1] == want
    ensures forall k | k in r.0.rows && k !in pool.rows :: r.0.rows[k] == want
    ensures want in pool.rows.Values ==> r.0 == pool
    ensures PairsUnique(pool.rows) ==> PairsUnique(r.0.rows)
  {
    match FindPortion(pool.rows, want, pool.next)
    case Some(k) => (pool, k)
    case None => (Pool(pool.rows[pool.next := want], pool.next + 1), pool.next)
  }

  lemma PairsOfFrame(bigger: Pool, smaller: Pool, ids: set<PortionId>)
    requires Extends(bigger, smaller) && ids <= smaller.rows.Keys
    ensures PairsOf(bigger.rows, ids) == PairsOf(smaller.rows, ids)
  {
  }

  /** `add_ingredients`: links one row per line to the recipe whose rows
      so far are `portions`. The linked pairs become the old ones plus the
      requested ones, no existing row changes, and a row is created only
      for a requested pair. */
  function AddIngredients(pool: Pool, portions: set<PortionId>, lines: seq<Line>): (r: (Pool, set<PortionId>))
    requires KeysBelow(pool) && portions <= pool.rows.Keys
    ensures KeysBelow(r.0) && Extends(r.0, pool) && r.1 <= r.0.rows.Keys
    ensures PairsOf(r.0.rows, r.1) == PairsOf(pool.rows, portions) + LinePortions(lines)
    ensures forall k | k in r.0.rows && k !in pool.rows :: r.0.rows[k] in LinePortions(lines)
    ensures PairsUnique(pool.rows) ==> PairsUnique(r.0.rows)
    decreases |lines|
  {
    if |lines| == 0 then
      (pool, portions)
    else
      var want := Portion(lines[0].ingredient, lines[0].amount);
      var (next, k) := GetOrCreate(pool, want);
      PairsOfFrame(next, pool, portions);
      assert PairsOf(next.rows, portions + {k}) == PairsOf(pool.rows, portions) + {want};
      assert LinePortions(lines) == {want} + LinePortions(lines[1..]) by {
        assert lines == [lines[0]] + lines[1..];
      }
      AddIngredients(next, portions + {k}, lines[1..])
  }

  /** Rows whose pairs are those of an acceptable ingredient list belong to
      pairwise different ingredients, and there is at least one. */
  lemma LinkedRowsDistinct(catalog: map<IngredientId, Ingredient>, rows: map<PortionId, Portion>, ids: set<PortionId>, lines: seq<Line>)
    requires PairsUnique(rows) && ids <= rows.Keys
    requires PairsOf(rows, ids) == LinePortions(lines)
    requires LinesValid(catalog, lines)
    ensures DistinctIngredients(rows, ids)
    ensures ids != {}
  {
    forall a, b | a in ids && b in ids && rows[a].ingredient == rows[b].ingredient
      ensures a == b
    {
      assert rows[a] in LinePortions(lines);
      assert rows[b] in LinePortions(lines);
      var la :| la in lines && rows[a] == Portion(la.ingredient, la.amount);
      var lb :| lb in lines && rows[b] == Portion(lb.ingredient, lb.amount);
      var i :| 0 <= i < |lines| && lines[i] == la;
      var j :| 0 <= j < |lines| && lines[j] == lb;
      assert IngredientIds(lines)[i] == IngredientIds(lines)[j];
      assert i == j;
    }
    var first := Portion(lines[0].ingredient, lines[0].amount);
    assert first in PairsOf(rows, ids);
  }

  // ---------------------------------------------------------------------
  // create and update

  /** The field checks `is_valid` runs before create or update: the image
      field, then the cooking time against the bounds of its column
      (`MinValueValidator(1)` and the positive integer range). */
  function ValidateFields(f: RecipeFields): (r: Result<ImageFile>)
    ensures r.Ok? <==> FieldValue(f.image).Ok? && 1 <= f.cookingTime <= MaxPositiveInteger
    ensures r.Ok? ==> r.value == FieldValue(f.image).value
    ensures FieldValue(f.image).Err? ==> r == Err(FieldValue(f.image).error)
    ensures FieldValue(f.image).Ok? && f.cookingTime < 1 ==> r == Err(BadRequest(CookingTimeTooSmall))
    ensures FieldValue(f.image).Ok? && f.cookingTime > MaxPositiveInteger ==> r == Err(BadRequest(CookingTimeTooLarge))
  {
    var image :- FieldValue(f.image);
    if f.cookingTime < 1 then Err(BadRequest(CookingTimeTooSmall))
    else if f.cookingTime > MaxPositiveInteger then Err(BadRequest(CookingTimeTooLarge))
    else Ok(image)
  }

  /** Everything a successful create or update requires of the request. */
  ghost predicate Acceptable(s: Store, f: RecipeFields, tagIds: seq<TagId>, lines: seq<Line>) {
    && ValidateFields(f).Ok?
    && NoDuplicates(tagIds)
    && LinesValid(s.ingredients, lines)
    && (forall i | 0 <= i < |tagIds| :: tagIds[i] in s.tags)
  }

  /** `t` is `s` with recipe `id` holding exactly the requested fields, tags
      and ingredient pairs. No other recipe, relation or catalog entry
      differs, no existing ingredient row changed, every new ingredient row
      holds a requested pair, and the id counter moved only for a new
      recipe. */
  ghost predicate WrittenAs(s: Store, t: Store, id: RecipeId, author: UserId, f: RecipeFields,
                            image: ImageFile, tagIds: seq<TagId>, lines: seq<Line>)
  {
    && id in t.recipes
    && t.recipes.Keys == s.recipes.Keys + {id}
    && (forall other | other in s.recipes && other != id :: t.recipes[other] == s.recipes[other])
    && t.recipes[id].author == author
    && t.recipes[id].name == f.name
    && t.recipes[id].text == f.text
    && t.recipes[id].image == image
    && t.recipes[id].cookingTime == f.cookingTime
    && t.recipes[id].tags == Elements(tagIds)
    && PairsOf(t.pool.rows, t.recipes[id].portions) == LinePortions(lines)
    && Extends(t.pool, s.pool)
    && (forall k | k in t.pool.rows && k !in s.pool.rows :: t.pool.rows[k] in LinePortions(lines))
    && t.nextRecipe == (if id in s.recipes then s.nextRecipe else s.nextRecipe + 1)
    && t.users == s.users && t.tags == s.tags && t.ingredients == s.ingredients
    && t.favorites == s.favorites && t.basket == s.basket && t.follows == s.follows
  }

  /** After `add_ingredients` from no rows, every row of the pool is still
      a valid IngredientRecipe row: new rows come from accepted lines. */
  lemma AddedPoolValid(pool: Pool, catalog: map<IngredientId, Ingredient>, lines: seq<Line>)
    requires PoolValid(pool, catalog) && LinesValid(catalog, lines)
    ensures PoolValid(AddIngredients(pool, {}, lines).0, catalog)
  {
    var added := AddIngredients(pool, {}, lines).0;
    forall k | k in added.rows
      ensures added.rows[k].amount >= 1 && added.rows[k].ingredient in catalog
    {
      if k !in pool.rows {
        var l :| l in lines && added.rows[k] == Portion(l.ingredient, l.amount);
      }
    }
  }

  /** Stores recipe `id` (new or existing) with the requested fields, tags
      and freshly linked ingredient rows. */
  function Write(s: Store, id: RecipeId, author: UserId, f: RecipeFields, image: ImageFile,
                 tagIds: seq<TagId>, lines: seq<Line>): (t: Store)
    requires KeysBelow(s.pool)
    requires id in s.recipes || id == s.nextRecipe
    ensures WrittenAs(s, t, id, author, f, image, tagIds, lines)
  {
    var (pool, portions) := AddIngredients(s.pool, {}, lines);
    assert PairsOf(s.pool.rows, {}) == {};
    var recipe := Recipe(author, f.name, f.text, image, f.cookingTime, Elements(tagIds), portions);
    var next := if id in s.recipes then s.nextRecipe else s.nextRecipe + 1;
    s.(pool := pool, recipes := s.recipes[id := recipe], nextRecipe := next)
  }

  /** A write of an accepted request keeps every constraint of the store. */
  lemma WriteKeepsValid(s: Store, id: RecipeId, author: UserId, f: RecipeFields, image: ImageFile,
                        tagIds: seq<TagId>, lines: seq<Line>)
    requires Valid(s) && author in s.users && f.cookingTime >= 1
    requires LinesValid(s.ingredients, lines)
    requires forall i | 0 <= i < |tagIds| :: tagIds[i] in s.tags
    requires id in s.recipes || id == s.nextRecipe
    ensures Valid(Write(s, id, author, f, image, tagIds, lines))
  {
    var t := Write(s, id, author, f, image, tagIds, lines);
    var (pool, portions) := AddIngredients(s.pool, {}, lines);
    assert t.pool == pool && t.recipes[id].portions == portions;
    LinkedRowsDistinct(s.ingredients, pool.rows, portions, lines);
    AddedPoolValid(s.pool, s.ingredients, lines);
    assert CatalogValid(t) by {
      assert UsersUnique(t.users) && TagsUnique(t.tags) && IngredientsUnique(t.ingredients);
    }
    assert Elements(tagIds) <= s.tags.Keys;
    assert RecipeValid(t, t.recipes[id]);
    RecipesKept(s, t, id);
    LinksKept(s, t);
  }

  /** The outcome of a write path that may leave changes behind even when
      it fails: every statement commits on its own, as in the database's
      autocommit mode. */
  datatype Outcome<T> = Outcome(result: Result<T>, store: Store)

  /** `Recipe.objects.create`: a row under the next id holding the scalar
      fields, with no tag and no ingredient link yet. */
  function InsertRecipe(s: Store, author: UserId, f: RecipeFields, image: ImageFile): (t: Store)
    requires Numbered(s)
    ensures s.nextRecipe !in s.recipes && t.recipes.Keys == s.recipes.Keys + {s.nextRecipe}
    ensures forall other | other in s.recipes :: t.recipes[other] == s.recipes[other]
    ensures t.recipes[s.nextRecipe] == Recipe(author, f.name, f.text, image, f.cookingTime, {}, {})
    ensures t == s.(recipes := t.recipes, nextRecipe := s.nextRecipe + 1)
  {
    var row := Recipe(author, f.name, f.text, image, f.cookingTime, {}, {});
    s.(recipes := s.recipes[s.nextRecipe := row], nextRecipe := s.nextRecipe + 1)
  }

  /** `create` as written: the field checks, `validate_tags`,
      `validate_ingredients`, then the recipe row, its tag links and its
      ingredient rows. A request naming an unknown tag makes the tag link
      insert fail after the row was inserted: the row stays, with no tag
      and no ingredient, and nothing catches the error. */
  function CreateRecipe(s: Store, author: UserId, f: RecipeFields, tagIds: seq<TagId>, lines: seq<Line>): (w: Outcome<RecipeId>)
    requires Numbered(s) && author in s.users
    ensures w.result.Ok? <==> Acceptable(s, f, tagIds, lines)
    ensures ValidateFields(f).Err? ==> w == Outcome(Err(ValidateFields(f).error), s)
    ensures ValidateFields(f).Ok? && !NoDuplicates(tagIds) ==> w == Outcome(Err(BadRequest(DuplicateTag)), s)
    ensures ValidateFields(f).Ok? && NoDuplicates(tagIds) && ValidateIngredients(s.ingredients, lines).Err? ==>
              w == Outcome(Err(ValidateIngredients(s.ingredients, lines).error), s)
    ensures && ValidateFields(f).Ok? && NoDuplicates(tagIds) && LinesValid(s.ingredients, lines)
            && (exists i | 0 <= i < |tagIds| :: tagIds[i] !in s.tags)
            ==> w == Outcome(Err(ServerError), InsertRecipe(s, author, f, ValidateFields(f).value))
    ensures w.result.Ok? ==> w.result.value == s.nextRecipe && w.result.value !in s.recipes
    ensures w.result.Ok? ==> WrittenAs(s, w.store, w.result.value, author, f, ValidateFields(f).value, tagIds, lines)
  {
    match ValidateFields(f)
    case Err(e) => Outcome(Err(e), s)
    case Ok(image) =>
      match ValidateTags(tagIds)
      case Err(e) => Outcome(Err(e), s)
      case Ok(_) =>
        match ValidateIngredients(s.ingredients, lines)
        case Err(e) => Outcome(Err(e), s)
        case Ok(_) =>
          if exists i | 0 <= i < |tagIds| :: tagIds[i] !in s.tags then
            Outcome(Err(ServerError), InsertRecipe(s, author, f, image))
          else
            Outcome(Ok(s.nextRecipe), Write(s, s.nextRecipe, author, f, image, tagIds, lines))
  }

  /** An acceptable request by a stored user is created, and the store it
      leaves meets every constraint. */
  lemma CreateKeepsValid(s: Store, author: UserId, f: RecipeFields, tagIds: seq<TagId>, lines: seq<Line>)
    requires Valid(s) && author in s.users
    requires Acceptable(s, f, tagIds, lines)
    ensures CreateRecipe(s, author, f, tagIds, lines).result.Ok?
    ensures Valid(CreateRecipe(s, author, f, tagIds, lines).store)
  {
    CreateIsWrite(s, author, f, tagIds, lines);
    WriteKeepsValid(s, s.nextRecipe, author, f, ValidateFields(f).value, tagIds, lines);
  }

  /** An accepted create is the write of its fields under the next id. */
  lemma CreateIsWrite(s: Store, author: UserId, f: RecipeFields, tagIds: seq<TagId>, lines: seq<Line>)
    requires Numbered(s) && author in s.users
    requires Acceptable(s, f, tagIds, lines)
    ensures CreateRecipe(s, author, f, tagIds, lines)
            == Outcome(Ok(s.nextRecipe), Write(s, s.nextRecipe, author, f, ValidateFields(f).value, tagIds, lines))
  {
    assert ValidateTags(tagIds).Ok? && ValidateIngredients(s.ingredients, lines).Ok?;
  }

  /** The as-written create, given an otherwise acceptable request that names
      an unknown tag, fails and leaves a recipe with no ingredient: a store
      no longer meeting the constraints. */
  lemma CreateLeavesBareRecipe(s: Store, author: UserId, f: RecipeFields, tagIds: seq<TagId>, lines: seq<Line>)
    requires Numbered(s) && author in s.users
    requires ValidateFields(f).Ok? && NoDuplicates(tagIds) && LinesValid(s.ingredients, lines)
    requires exists i | 0 <= i < |tagIds| :: tagIds[i] !in s.tags
    ensures CreateRecipe(s, author, f, tagIds, lines).result == Err(ServerError)
    ensures s.nextRecipe in CreateRecipe(s, author, f, tagIds, lines).store.recipes
    ensures CreateRecipe(s, author, f, tagIds, lines).store.recipes[s.nextRecipe].portions == {}
    ensures !Valid(CreateRecipe(s, author, f, tagIds, lines).store)
  {
    var t := CreateRecipe(s, author, f, tagIds, lines).store;
    assert !RecipeValid(t, t.recipes[s.nextRecipe]);
  }

  /** The create the intended behaviour calls for: every check, the tag
      existence included, runs before anything is written, so a refused
      create leaves no store behind. */
  function CreateRecipeAtomic(s: Store, author: UserId, f: RecipeFields, tagIds: seq<TagId>, lines: seq<Line>): (r: Result<(Store, RecipeId)>)
    requires Numbered(s) && author in s.users
    ensures r.Ok? <==> Acceptable(s, f, tagIds, lines)
    ensures ValidateFields(f).Err? ==> r == Err(ValidateFields(f).error)
    ensures ValidateFields(f).Ok? && !NoDuplicates(tagIds) ==> r == Err(BadRequest(DuplicateTag))
    ensures ValidateFields(f).Ok? && NoDuplicates(tagIds) && ValidateIngredients(s.ingredients, lines).Err? ==>
              r == Err(ValidateIngredients(s.ingredients, lines).error)
    ensures && ValidateFields(f).Ok? && NoDuplicates(tagIds) && LinesValid(s.ingredients, lines)
            && (exists i | 0 <= i < |tagIds| :: tagIds[i] !in s.tags)
            ==> r == Err(ServerError)
    ensures r.Ok? ==> r.value.1 !in s.recipes
    ensures r.Ok? ==> WrittenAs(s, r.value.0, r.value.1, author, f, ValidateFields(f).value, tagIds, lines)
  {
    var image :- ValidateFields(f);
    var _ :- ValidateTags(tagIds);
    var _ :- ValidateIngredients(s.ingredients, lines);
    if exists i | 0 <= i < |tagIds| :: tagIds[i] !in s.tags then Err(ServerError)
    else
      var id := s.nextRecipe;
      Ok((Write(s, id, author, f, image, tagIds, lines), id))
  }

  /** Every outcome of the atomic create meets the constraints: a refusal
      writes nothing and a success keeps every constraint. */
  lemma CreateAtomicKeepsValid(s: Store, author: UserId, f: RecipeFields, tagIds: seq<TagId>, lines: seq<Line>)
    requires Valid(s) && author in s.users
    requires Acceptable(s, f, tagIds, lines)
    ensures CreateRecipeAtomic(s, author, f, tagIds, lines).Ok?
    ensures Valid(CreateRecipeAtomic(s, author, f, tagIds, lines).value.0)
  {
    assert ValidateTags(tagIds).Ok? && ValidateIngredients(s.ingredients, lines).Ok?;
    WriteKeepsValid(s, s.nextRecipe, author, f, ValidateFields(f).value, tagIds, lines);
  }

  /** Both creates accept the same requests, store the same recipe, and
      refuse the rest with the same error. */
  lemma CreatesAgree(s: Store, author: UserId, f: RecipeFields, tagIds: seq<TagId>, lines: seq<Line>)
    requires Numbered(s) && author in s.users
    ensures CreateRecipeAtomic(s, author, f, tagIds, lines).Ok? ==>
              CreateRecipe(s, author, f, tagIds, lines)
              == Outcome(Ok(CreateRecipeAtomic(s, author, f, tagIds, lines).value.1),
                         CreateRecipeAtomic(s, author, f, tagIds, lines).value.0)
    ensures CreateRecipeAtomic(s, author, f, tagIds, lines).Err? ==>
              CreateRecipe(s, author, f, tagIds, lines).result
              == Err(CreateRecipeAtomic(s, author, f, tagIds, lines).error)
  {
    if Acceptable(s, f, tagIds, lines) {
      CreateIsWrite(s, author, f, tagIds, lines);
      assert ValidateTags(tagIds).Ok? && ValidateIngredients(s.ingredients, lines).Ok?;
    }
  }

  /** The generic model update of the serializer: the recipe's scalar
      fields take the requested values; its tags and ingredient rows, and
      everything else, stay. */
  function SaveFields(s: Store, id: RecipeId, f: RecipeFields, image: ImageFile): (t: Store)
    requires id in s.recipes
    ensures t.recipes.Keys == s.recipes.Keys
    ensures forall other | other in s.recipes && other != id :: t.recipes[other] == s.recipes[other]
    ensures t.recipes[id] == s.recipes[id].(name := f.name, text := f.text, image := image,
                                            cookingTime := f.cookingTime)
    ensures t == s.(recipes := t.recipes)
  {
    var current := s.recipes[id];
    s.(recipes := s.recipes[id := current.(name := f.name, text := f.text, image := image,
                                           cookingTime := f.cookingTime)])
  }

  lemma SaveFieldsKeepsValid(s: Store, id: RecipeId, f: RecipeFields, image: ImageFile)
    requires Valid(s) && id in s.recipes && f.cookingTime >= 1
    ensures Valid(SaveFields(s, id, f, image))
  {
    var t := SaveFields(s, id, f, image);
    CatalogKept(s, t);
    assert RecipeValid(s, s.recipes[id]);
    RecipesKept(s, t, id);
    LinksKept(s, t);
  }

  /** `instance.tags.clear()`: the recipe keeps everything but its tags. */
  function ClearTags(s: Store, id: RecipeId): (t: Store)
    requires id in s.recipes
    ensures t.recipes.Keys == s.recipes.Keys
    ensures forall other | other in s.recipes && other != id :: t.recipes[other] == s.recipes[other]
    ensures t.recipes[id] == s.recipes[id].(tags := {})
    ensures t == s.(recipes := t.recipes)
  {
    var current := s.recipes[id];
    s.(recipes := s.recipes[id := current.(tags := {})])
  }

  lemma ClearTagsKeepsValid(s: Store, id: RecipeId)
    requires Valid(s) && id in s.recipes
    ensures Valid(ClearTags(s, id))
  {
    var t := ClearTags(s, id);
    CatalogKept(s, t);
    assert RecipeValid(s, s.recipes[id]);
    RecipesKept(s, t, id);
    LinksKept(s, t);
  }

  /** Writing a recipe does not depend on the scalar fields it had before. */
  lemma WriteOverSaved(s: Store, id: RecipeId, author: UserId, f: RecipeFields, image: ImageFile,
                       tagIds: seq<TagId>, lines: seq<Line>)
    requires KeysBelow(s.pool) && id in s.recipes
    ensures Write(SaveFields(s, id, f, image), id, author, f, image, tagIds, lines)
            == Write(s, id, author, f, image, tagIds, lines)
  {
    var saved := SaveFields(s, id, f, image);
    var recipe := Recipe(author, f.name, f.text, image, f.cookingTime, Elements(tagIds),
                         AddIngredients(s.pool, {}, lines).1);
    assert saved.recipes[id := recipe] == s.recipes[id := recipe];
  }

  /** `update` as written: once the field checks pass, the scalar fields are
      saved BEFORE `validate_tags` and `validate_ingredients` run, so a
      refused update still changes the recipe's name, text, image and
      cooking time; an unknown tag fails after the tag links were cleared.
      On success the tags and ingredient rows are replaced wholesale. */
  function UpdateRecipe(s: Store, id: RecipeId, f: RecipeFields, tagIds: seq<TagId>, lines: seq<Line>): (w: Outcome<()>)
    requires Numbered(s) && id in s.recipes
    ensures w.result.Ok? <==> Acceptable(s, f, tagIds, lines)
    ensures ValidateFields(f).Err? ==> w == Outcome(Err(ValidateFields(f).error), s)
    ensures ValidateFields(f).Ok? && !NoDuplicates(tagIds) ==>
              w.result == Err(BadRequest(DuplicateTag))
    ensures ValidateFields(f).Ok? && NoDuplicates(tagIds) && ValidateIngredients(s.ingredients, lines).Err? ==>
              w.result == Err(ValidateIngredients(s.ingredients, lines).error)
    ensures ValidateFields(f).Ok? && w.result.Err? && w.result.error != ServerError ==>
              w.store == SaveFields(s, id, f, ValidateFields(f).value)
    ensures && ValidateFields(f).Ok? && NoDuplicates(tagIds) && LinesValid(s.ingredients, lines)
            && (exists i | 0 <= i < |tagIds| :: tagIds[i] !in s.tags)
            ==> w == Outcome(Err(ServerError), ClearTags(SaveFields(s, id, f, ValidateFields(f).value), id))
    ensures w.result.Ok? ==>
              WrittenAs(s, w.store, id, s.recipes[id].author, f, ValidateFields(f).value, tagIds, lines)
  {
    match ValidateFields(f)
    case Err(e) => Outcome(Err(e), s)
    case Ok(image) =>
      var saved := SaveFields(s, id, f, image);
      match ValidateTags(tagIds)
      case Err(e) => Outcome(Err(e), saved)
      case Ok(_) =>
        match ValidateIngredients(s.ingredients, lines)
        case Err(e) => Outcome(Err(e), saved)
        case Ok(_) =>
          if exists i | 0 <= i < |tagIds| :: tagIds[i] !in s.tags then
            Outcome(Err(ServerError), ClearTags(saved, id))
          else
            WriteOverSaved(s, id, s.recipes[id].author, f, image, tagIds, lines);
            Outcome(Ok(()), Write(saved, id, s.recipes[id].author, f, image, tagIds, lines))
  }

  /** An accepted as-written update ends as the write of its fields over
      recipe `id`: the scalar fields it saved early are overwritten. */
  lemma UpdateIsWrite(s: Store, id: RecipeId, f: RecipeFields, tagIds: seq<TagId>, lines: seq<Line>)
    requires Numbered(s) && id in s.recipes
    requires UpdateRecipe(s, id, f, tagIds, lines).result.Ok?
    ensures Acceptable(s, f, tagIds, lines)
    ensures UpdateRecipe(s, id, f, tagIds, lines).store
            == Write(s, id, s.recipes[id].author, f, ValidateFields(f).value, tagIds, lines)
  {
    var image := ValidateFields(f).value;
    assert ValidateTags(tagIds).Ok? && ValidateIngredients(s.ingredients, lines).Ok?;
    WriteOverSaved(s, id, s.recipes[id].author, f, image, tagIds, lines);
  }

  /** The store a refused as-written update leaves once the field checks
      passed: the saved fields, and no tag links when the refusal came from
      an unknown tag. */
  lemma UpdateRefusedStore(s: Store, id: RecipeId, f: RecipeFields, tagIds: seq<TagId>, lines: seq<Line>)
    requires Numbered(s) && id in s.recipes
    requires ValidateFields(f).Ok? && !Acceptable(s, f, tagIds, lines)
    ensures NoDuplicates(tagIds) && LinesValid(s.ingredients, lines) ==>
              UpdateRecipe(s, id, f, tagIds, lines).store
              == ClearTags(SaveFields(s, id, f, ValidateFields(f).value), id)
    ensures !(NoDuplicates(tagIds) && LinesValid(s.ingredients, lines)) ==>
              UpdateRecipe(s, id, f, tagIds, lines).store == SaveFields(s, id, f, ValidateFields(f).value)
  {
    if NoDuplicates(tagIds) && LinesValid(s.ingredients, lines) {
      assert ValidateTags(tagIds).Ok? && ValidateIngredients(s.ingredients, lines).Ok?;
    }
  }

  /** Whatever the as-written update does, the store it leaves meets every
      constraint. */
  lemma UpdateKeepsValid(s: Store, id: RecipeId, f: RecipeFields, tagIds: seq<TagId>, lines: seq<Line>)
    requires Valid(s) && id in s.recipes
    ensures Valid(UpdateRecipe(s, id, f, tagIds, lines).store)
  {
    var t := UpdateRecipe(s, id, f, tagIds, lines).store;
    if ValidateFields(f).Ok? {
      var image := ValidateFields(f).value;
      var saved := SaveFields(s, id, f, image);
      SaveFieldsKeepsValid(s, id, f, image);
      if Acceptable(s, f, tagIds, lines) {
        UpdateIsWrite(s, id, f, tagIds, lines);
        WriteKeepsValid(s, id, s.recipes[id].author, f, image, tagIds, lines);
      } else if NoDuplicates(tagIds) && LinesValid(s.ingredients, lines) {
        UpdateRefusedStore(s, id, f, tagIds, lines);
        assert t == ClearTags(saved, id);
        ClearTagsKeepsValid(saved, id);
      } else {
        UpdateRefusedStore(s, id, f, tagIds, lines);
        assert t == saved;
      }
    }
  }

  /** The update the intended behaviour calls for: every check runs before
      anything is written, so a refused update leaves no store behind. */
  function UpdateRecipeAtomic(s: Store, id: RecipeId, f: RecipeFields, tagIds: seq<TagId>, lines: seq<Line>): (r: Result<Store>)
    requires Numbered(s) && id in s.recipes
    ensures r.Ok? <==> Acceptable(s, f, tagIds, lines)
    ensures ValidateFields(f).Err? ==> r == Err(ValidateFields(f).error)
    ensures ValidateFields(f).Ok? && !NoDuplicates(tagIds) ==> r == Err(BadRequest(DuplicateTag))
    ensures ValidateFields(f).Ok? && NoDuplicates(tagIds) && ValidateIngredients(s.ingredients, lines).Err? ==>
              r == Err(ValidateIngredients(s.ingredients, lines).error)
    ensures && ValidateFields(f).Ok? && NoDuplicates(tagIds) && LinesValid(s.ingredients, lines)
            && (exists i | 0 <= i < |tagIds| :: tagIds[i] !in s.tags)
            ==> r == Err(ServerError)
    ensures r.Ok? ==>
              WrittenAs(s, r.value, id, s.recipes[id].author, f, ValidateFields(f).value, tagIds, lines)
  {
    var image :- ValidateFields(f);
    var _ :- ValidateTags(tagIds);
    var _ :- ValidateIngredients(s.ingredients, lines);
    if exists i | 0 <= i < |tagIds| :: tagIds[i] !in s.tags then Err(ServerError)
    else Ok(Write(s, id, s.recipes[id].author, f, image, tagIds, lines))
  }

  /** An acceptable atomic update succeeds and keeps every constraint. */
  lemma UpdateAtomicKeepsValid(s: Store, id: RecipeId, f: RecipeFields, tagIds: seq<TagId>, lines: seq<Line>)
    requires Valid(s) && id in s.recipes
    requires Acceptable(s, f, tagIds, lines)
    ensures UpdateRecipeAtomic(s, id, f, tagIds, lines).Ok?
    ensures Valid(UpdateRecipeAtomic(s, id, f, tagIds, lines).value)
  {
    AtomicIsWrite(s, id, f, tagIds, lines);
    WriteKeepsValid(s, id, s.recipes[id].author, f, ValidateFields(f).value, tagIds, lines);
  }

  /** An accepted atomic update is the write of its fields over recipe `id`. */
  lemma AtomicIsWrite(s: Store, id: RecipeId, f: RecipeFields, tagIds: seq<TagId>, lines: seq<Line>)
    requires Numbered(s) && id in s.recipes
    requires UpdateRecipeAtomic(s, id, f, tagIds, lines).Ok?
    ensures Acceptable(s, f, tagIds, lines)
    ensures UpdateRecipeAtomic(s, id, f, tagIds, lines).value
            == Write(s, id, s.recipes[id].author, f, ValidateFields(f).value, tagIds, lines)
  {
  }

  /** Both updates accept the same requests and then leave the same store. */
  lemma UpdatesAgreeOnSuccess(s: Store, id: RecipeId, f: RecipeFields, tagIds: seq<TagId>, lines: seq<Line>)
    requires Numbered(s) && id in s.recipes
    requires UpdateRecipeAtomic(s, id, f, tagIds, lines).Ok?
    ensures UpdateRecipe(s, id, f, tagIds, lines)
            == Outcome(Ok(()), UpdateRecipeAtomic(s, id, f, tagIds, lines).value)
  {
    AtomicIsWrite(s, id, f, tagIds, lines);
    UpdateIsWrite(s, id, f, tagIds, lines);
  }

  /** Both updates refuse the same requests with the same error. */
  lemma UpdatesAgreeOnRefusal(s: Store, id: RecipeId, f: RecipeFields, tagIds: seq<TagId>, lines: seq<Line>)
    requires Numbered(s) && id in s.recipes
    requires UpdateRecipeAtomic(s, id, f, tagIds, lines).Err?
    ensures UpdateRecipe(s, id, f, tagIds, lines).result
            == Err(UpdateRecipeAtomic(s, id, f, tagIds, lines).error)
  {
  }

  /** The as-written update refuses a request with no ingredient lines yet
      saves its new name; the atomic update refuses it without writing. */
  lemma UpdateLeaksScalarFields(s: Store, id: RecipeId, f: RecipeFields, tagIds: seq<TagId>)
    requires Numbered(s) && id in s.recipes
    requires ValidateFields(f).Ok? && NoDuplicates(tagIds)
    requires f.name != s.recipes[id].name
    ensures UpdateRecipe(s, id, f, tagIds, []).result == Err(BadRequest(EmptyIngredients))
    ensures UpdateRecipe(s, id, f, tagIds, []).store.recipes[id].name == f.name
    ensures UpdateRecipe(s, id, f, tagIds, []).store != s
    ensures UpdateRecipeAtomic(s, id, f, tagIds, []) == Err(BadRequest(EmptyIngredients))
  {
  }
}
