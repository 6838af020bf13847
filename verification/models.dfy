/** The entities of the recipe application and the constraints the database
    schema puts on them, over an in-memory store.

    Every table is a map from ids to records; the three relation tables
    (favorites, basket, follows) are sets of pairs, so a pair is stored at
    most once, which is the schema's uniqueness constraint on each of them.
    Ids are handed out by counters, as the database's auto-increment does. */
module Models {
  import opened Results
  import opened Base64Image

  type UserId = nat
  type TagId = nat
  type IngredientId = nat
  type PortionId = nat
  type RecipeId = nat

  /** The largest value Django's `PositiveIntegerField` admits: the upper
      end of its 32-bit column range, which the serializer checks as the
      field's `max_value`. */
  const MaxPositiveInteger: int := 2147483647

  datatype User = User(
    username: string,
    email: string,
    firstName: string,
    lastName: string,
    isStaff: bool)

  /** `color` and `slug` may be null; a null never clashes with another. */
  datatype Tag = Tag(name: string, color: Option<string>, slug: Option<string>)

  datatype Ingredient = Ingredient(name: string, unit: string)

  /** An IngredientRecipe row: this many units of this ingredient. Rows are
      shared by every recipe that asks for the same pair. */
  datatype Portion = Portion(ingredient: IngredientId, amount: int)

  /** The IngredientRecipe table with its id counter. */
  datatype Pool = Pool(rows: map<PortionId, Portion>, next: nat)

  datatype Recipe = Recipe(
    author: UserId,
    name: string,
    text: string,
    image: ImageFile,
    cookingTime: int,
    tags: set<TagId>,
    portions: set<PortionId>)

  datatype Store = Store(
    users: map<UserId, User>,
    tags: map<TagId, Tag>,
    ingredients: map<IngredientId, Ingredient>,
    pool: Pool,
    recipes: map<RecipeId, Recipe>,
    nextRecipe: nat,
    favorites: set<(UserId, RecipeId)>,
    basket: set<(UserId, RecipeId)>,
    follows: set<(UserId, UserId)>)

  /** Username and email are each unique among users. */
  ghost predicate UsersUnique(users: map<UserId, User>) {
    forall a, b | a in users && b in users && a != b ::
      users[a].username != users[b].username && users[a].email != users[b].email
  }

  /** Tag name is unique; color and slug are unique where not null. */
  ghost predicate TagsUnique(tags: map<TagId, Tag>) {
    forall a, b | a in tags && b in tags && a != b ::
      && tags[a].name != tags[b].name
      && (tags[a].color.Some? ==> tags[a].color != tags[b].color)
      && (tags[a].slug.Some? ==> tags[a].slug != tags[b].slug)
  }

  /** Ingredient name is unique. */
  ghost predicate IngredientsUnique(ingredients: map<IngredientId, Ingredient>) {
    forall a, b | a in ingredients && b in ingredients && a != b ::
      ingredients[a].name != ingredients[b].name
  }

  /** No two IngredientRecipe rows hold the same (ingredient, amount) pair. */
  ghost predicate PairsUnique(rows: map<PortionId, Portion>) {
    forall a, b | a in rows && b in rows && rows[a] == rows[b] :: a == b
  }

  /** The IngredientRecipe table: ids below the counter, amount at least 1,
      a real ingredient, and unique pairs. */
  ghost predicate PoolValid(pool: Pool, ingredients: map<IngredientId, Ingredient>) {
    && (forall k | k in pool.rows :: k < pool.next)
    && (forall k | k in pool.rows ::
          pool.rows[k].amount >= 1 && pool.rows[k].ingredient in ingredients)
    && PairsUnique(pool.rows)
  }

  /** The rows of one recipe name pairwise distinct ingredients. */
  ghost predicate DistinctIngredients(rows: map<PortionId, Portion>, portions: set<PortionId>)
    requires portions <= rows.Keys
  {
    forall a, b | a in portions && b in portions && rows[a].ingredient == rows[b].ingredient :: a == b
  }

  /** One recipe as the write path leaves it: a known author, known tags,
      at least one ingredient row and no ingredient twice, and a cooking
      time of at least 1. */
  ghost predicate RecipeValid(s: Store, r: Recipe) {
    && r.author in s.users
    && r.cookingTime >= 1
    && r.tags <= s.tags.Keys
    && r.portions <= s.pool.rows.Keys
    && r.portions != {}
    && DistinctIngredients(s.pool.rows, r.portions)
  }

  ghost predicate RecipesValid(s: Store) {
    && (forall id | id in s.recipes :: id < s.nextRecipe)
    && (forall id | id in s.recipes :: RecipeValid(s, s.recipes[id]))
  }

  /** A relation row refers to a stored user and a stored recipe. */
  ghost predicate RefersToRecipes(s: Store, rel: set<(UserId, RecipeId)>) {
    forall p | p in rel :: p.0 in s.users && p.1 in s.recipes
  }

  /** A follow row refers to two stored users and never to the same one twice. */
  ghost predicate FollowsValid(s: Store) {
    forall p | p in s.follows :: p.0 in s.users && p.1 in s.users && p.0 != p.1
  }

  /** The constraints on the users, the catalog and the IngredientRecipe
      rows. */
  ghost predicate CatalogValid(s: Store) {
    && UsersUnique(s.users)
    && TagsUnique(s.tags)
    && IngredientsUnique(s.ingredients)
    && PoolValid(s.pool, s.ingredients)
  }

  /** The constraints on recipes and on the three relations. */
  ghost predicate LinksValid(s: Store) {
    && RecipesValid(s)
    && RefersToRecipes(s, s.favorites)
    && RefersToRecipes(s, s.basket)
    && FollowsValid(s)
  }

  /** Every constraint the schema and the write paths keep. */
  ghost predicate Valid(s: Store) {
    CatalogValid(s) && LinksValid(s)
  }

  /** A change that leaves users, catalog and IngredientRecipe rows alone
      keeps their constraints. */
  lemma CatalogKept(s: Store, t: Store)
    requires CatalogValid(s)
    requires t.users == s.users && t.tags == s.tags && t.ingredients == s.ingredients && t.pool == s.pool
    ensures CatalogValid(t)
  {
  }

  /** `bigger` keeps every IngredientRecipe row of `smaller` unchanged. */
  ghost predicate Extends(bigger: Pool, smaller: Pool) {
    && smaller.rows.Keys <= bigger.rows.Keys
    && (forall k | k in smaller.rows :: bigger.rows[k] == smaller.rows[k])
    && smaller.next <= bigger.next
  }

  /** Writing one recipe `id` with a valid record, over a pool that only
      grew, keeps the recipe constraints of every other recipe. */
  lemma RecipesKept(s: Store, t: Store, id: RecipeId)
    requires RecipesValid(s)
    requires t.users == s.users && t.tags == s.tags && Extends(t.pool, s.pool)
    requires t.recipes.Keys == s.recipes.Keys + {id}
    requires forall other | other in s.recipes && other != id :: t.recipes[other] == s.recipes[other]
    requires RecipeValid(t, t.recipes[id]) && id < t.nextRecipe && s.nextRecipe <= t.nextRecipe
    ensures RecipesValid(t)
  {
    forall other | other in t.recipes
      ensures RecipeValid(t, t.recipes[other])
    {
      if other != id {
        assert RecipeValid(s, s.recipes[other]);
        var ps := s.recipes[other].portions;
        assert forall a | a in ps :: t.pool.rows[a] == s.pool.rows[a];
      }
    }
  }

  /** Relation rows keep their constraints when no user or recipe goes away. */
  lemma LinksKept(s: Store, t: Store)
    requires LinksValid(s) && RecipesValid(t)
    requires t.users == s.users && s.recipes.Keys <= t.recipes.Keys
    requires t.favorites == s.favorites && t.basket == s.basket && t.follows == s.follows
    ensures LinksValid(t)
  {
  }

  /** Deleting a recipe cascades to every favorite and basket row that
      refers to it; its tag and ingredient links go with the recipe itself,
      while the shared IngredientRecipe rows stay in the table. */
  function DeleteRecipe(s: Store, id: RecipeId): (t: Store)
    ensures id !in t.recipes
    ensures forall u :: (u, id) !in t.favorites && (u, id) !in t.basket
    ensures forall p: (UserId, RecipeId) | p.1 != id :: (p in t.favorites <==> p in s.favorites)
    ensures forall p: (UserId, RecipeId) | p.1 != id :: (p in t.basket <==> p in s.basket)
    ensures forall other | other != id && other in s.recipes ::
              other in t.recipes && t.recipes[other] == s.recipes[other]
    ensures t.recipes.Keys == s.recipes.Keys - {id}
    ensures t.pool == s.pool && t.users == s.users && t.follows == s.follows
    ensures t == s.(recipes := t.recipes, favorites := t.favorites, basket := t.basket)
  {
    var favorites := set p | p in s.favorites && p.1 != id;
    var basket := set p | p in s.basket && p.1 != id;
    s.(recipes := s.recipes - {id}, favorites := favorites, basket := basket)
  }

  /** The cascade keeps every constraint; without it the favorite and
      basket rows of the deleted recipe would dangle. */
  lemma DeleteRecipeKeepsValid(s: Store, id: RecipeId)
    requires Valid(s)
    ensures Valid(DeleteRecipe(s, id))
  {
    var t := DeleteRecipe(s, id);
    CatalogKept(s, t);
    forall r | r in t.recipes
      ensures RecipeValid(t, t.recipes[r])
    {
      assert RecipeValid(s, s.recipes[r]);
    }
    assert LinksValid(t);
  }
}
