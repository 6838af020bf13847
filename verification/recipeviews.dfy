/** The recipe endpoints: create, update and delete through the recipe
    view set with its permission class, the basket and favorite toggles,
    and the two existence flags the recipe serializer shows.

    Each endpoint runs the view-level permission check first, then looks
    the recipe up (404), then the object-level check, then the operation. */
module RecipeViews {
  import opened Results
  import opened Models
  import opened Permissions
  import opened RecipeWrites
  import Toggles

  /** `perform_create`: the requesting user becomes the author. Creating is
      an unsafe method, so anonymous viewers are refused; a signed-in
      viewer's request goes through the serializer's `create` as written. */
  function CreateEndpoint(s: Store, v: Viewer, f: RecipeFields, tagIds: seq<TagId>, lines: seq<Line>): (w: Outcome<RecipeId>)
    requires Numbered(s) && ViewerKnown(s, v)
    ensures !AuthorOrAdminOrReadOnly(Post, v) ==> w == Outcome(Err(Forbidden), s)
    ensures v.Member? ==> w == CreateRecipe(s, v.id, f, tagIds, lines)
    ensures w.result.Ok? <==> v.Member? && Acceptable(s, f, tagIds, lines)
    ensures w.result.Ok? ==> w.result.value !in s.recipes && w.result.value in w.store.recipes
    ensures w.result.Ok? ==> w.store.recipes[w.result.value].author == v.id
  {
    if !AuthorOrAdminOrReadOnly(Post, v) then Outcome(Err(Forbidden), s)
    else CreateRecipe(s, v.id, f, tagIds, lines)
  }

  /** The update endpoint (PUT and PATCH): view permission, then 404 for an
      unknown recipe, then the object permission (author or staff), then
      the serializer's `update` as written, which saves the scalar fields
      before its own checks run. The recipe keeps its author even when
      staff edit it. */
  function UpdateEndpoint(s: Store, v: Viewer, id: RecipeId, f: RecipeFields, tagIds: seq<TagId>, lines: seq<Line>): (w: Outcome<()>)
    requires Numbered(s) && ViewerKnown(s, v)
    ensures v.Anonymous? ==> w == Outcome(Err(Forbidden), s)
    ensures v.Member? && id !in s.recipes ==> w == Outcome(Err(NotFound), s)
    ensures v.Member? && id in s.recipes && !IsAuthor(v, s.recipes[id].author) && !IsStaff(v) ==>
              w == Outcome(Err(Forbidden), s)
    ensures v.Member? && id in s.recipes && (IsAuthor(v, s.recipes[id].author) || IsStaff(v)) ==>
              w == UpdateRecipe(s, id, f, tagIds, lines)
    ensures w.result.Ok? <==> && v.Member? && id in s.recipes
                              && (IsAuthor(v, s.recipes[id].author) || IsStaff(v))
                              && Acceptable(s, f, tagIds, lines)
    ensures w.result.Ok? ==>
              WrittenAs(s, w.store, id, s.recipes[id].author, f, ValidateFields(f).value, tagIds, lines)
    ensures && v.Member? && id in s.recipes && (IsAuthor(v, s.recipes[id].author) || IsStaff(v))
            && ValidateFields(f).Ok? && w.result.Err? && w.result.error != ServerError
            ==> w.store == SaveFields(s, id, f, ValidateFields(f).value)
  {
    if !AuthorOrAdminOrReadOnly(Put, v) then Outcome(Err(Forbidden), s)
    else if id !in s.recipes then Outcome(Err(NotFound), s)
    else if !AuthorOrAdminOrReadOnlyObject(Put, v, s.recipes[id].author) then Outcome(Err(Forbidden), s)
    else UpdateRecipe(s, id, f, tagIds, lines)
  }

  /** The delete endpoint: the same checks as update, then the cascade. */
  function DeleteEndpoint(s: Store, v: Viewer, id: RecipeId): (r: Result<Store>)
    ensures v.Anonymous? ==> r == Err(Forbidden)
    ensures v.Member? && id !in s.recipes ==> r == Err(NotFound)
    ensures v.Member? && id in s.recipes && !IsAuthor(v, s.recipes[id].author) && !IsStaff(v) ==>
              r == Err(Forbidden)
    ensures r.Ok? <==> v.Member? && id in s.recipes && (IsAuthor(v, s.recipes[id].author) || IsStaff(v))
    ensures r.Ok? ==> r.value == DeleteRecipe(s, id)
    ensures r.Ok? ==> id !in r.value.recipes && r.value.recipes.Keys == s.recipes.Keys - {id}
    ensures r.Ok? ==> forall u :: (u, id) !in r.value.favorites && (u, id) !in r.value.basket
  {
    if !AuthorOrAdminOrReadOnly(Delete, v) then Err(Forbidden)
    else if id !in s.recipes then Err(NotFound)
    else if !AuthorOrAdminOrReadOnlyObject(Delete, v, s.recipes[id].author) then Err(Forbidden)
    else Ok(DeleteRecipe(s, id))
  }

  /** A signed-in user's acceptable request creates a recipe and leaves
      the store whole. */
  lemma CreateEndpointKeepsValid(s: Store, v: Viewer, f: RecipeFields, tagIds: seq<TagId>, lines: seq<Line>)
    requires Valid(s) && ViewerKnown(s, v) && v.Member?
    requires Acceptable(s, f, tagIds, lines)
    ensures CreateEndpoint(s, v, f, tagIds, lines).result.Ok?
    ensures Valid(CreateEndpoint(s, v, f, tagIds, lines).store)
  {
    CreateKeepsValid(s, v.id, f, tagIds, lines);
  }

  /** Whatever the update endpoint answers, the store it leaves meets every
      constraint: a refusal before the update writes nothing, and every
      outcome of the update itself keeps them. */
  lemma UpdateEndpointKeepsValid(s: Store, v: Viewer, id: RecipeId, f: RecipeFields, tagIds: seq<TagId>, lines: seq<Line>)
    requires Valid(s) && ViewerKnown(s, v)
    ensures Valid(UpdateEndpoint(s, v, id, f, tagIds, lines).store)
  {
    if v.Member? && id in s.recipes && (IsAuthor(v, s.recipes[id].author) || IsStaff(v)) {
      UpdateKeepsValid(s, id, f, tagIds, lines);
    }
  }

  /** A delete leaves the store whole: the cascade takes the recipe's
      favorite and basket rows with it. */
  lemma DeleteEndpointKeepsValid(s: Store, v: Viewer, id: RecipeId)
    requires Valid(s)
    requires DeleteEndpoint(s, v, id).Ok?
    ensures Valid(DeleteEndpoint(s, v, id).value)
  {
    assert DeleteEndpoint(s, v, id) == Ok(DeleteRecipe(s, id));
    DeleteRecipeKeepsValid(s, id);
  }

  // basket and favorites

  /** The shared body of the `shopping_cart` and `favorite` actions on one
      relation: signed-in viewers only, 404 for an unknown recipe, then POST
      adds the pair and DELETE removes it. */
  function RecipeToggle(s: Store, rel: set<(UserId, RecipeId)>, v: Viewer, m: Method, id: RecipeId,
                        present: Reason, absent: Reason): (r: Result<set<(UserId, RecipeId)>>)
    requires m == Post || m == Delete
    ensures !v.Member? <==> r == Err(Forbidden)
    ensures v.Member? ==> (id !in s.recipes <==> r == Err(NotFound))
    ensures r.Ok? ==> v.Member? && id in s.recipes
    ensures v.Member? && id in s.recipes && m == Post ==>
              && (r.Err? <==> (v.id, id) in rel)
              && (r.Err? ==> r.error == BadRequest(present))
              && (r.Ok? ==> r.value == rel + {(v.id, id)})
    ensures v.Member? && id in s.recipes && m == Delete ==>
              && (r.Err? <==> (v.id, id) !in rel)
              && (r.Err? ==> r.error == BadRequest(absent))
              && (r.Ok? ==> r.value == rel - {(v.id, id)})
  {
    if !IsAuthenticatedOrAdmin(v) then Err(Forbidden)
    else if id !in s.recipes then Err(NotFound)
    else
      var r := if m == Post then Toggles.Add(rel, v.id, id, present) else Toggles.Remove(rel, v.id, id, absent);
      assert r.Ok? && m == Post ==> r.value == rel + {(v.id, id)};
      assert r.Ok? && m == Delete ==> r.value == rel - {(v.id, id)};
      r
  }

  /** The `shopping_cart` action over the basket. */
  function ShoppingCart(s: Store, v: Viewer, m: Method, id: RecipeId): (r: Result<Store>)
    requires m == Post || m == Delete
    ensures r.Err? <==> RecipeToggle(s, s.basket, v, m, id, AlreadyInBasket, NotInBasket).Err?
    ensures r.Err? ==> r.error == RecipeToggle(s, s.basket, v, m, id, AlreadyInBasket, NotInBasket).error
    ensures r.Ok? ==> r.value == s.(basket := r.value.basket)
    ensures r.Ok? && m == Post ==> (v.id, id) !in s.basket && r.value.basket == s.basket + {(v.id, id)}
    ensures r.Ok? && m == Delete ==> (v.id, id) in s.basket && r.value.basket == s.basket - {(v.id, id)}
  {
    var basket :- RecipeToggle(s, s.basket, v, m, id, AlreadyInBasket, NotInBasket);
    Ok(s.(basket := basket))
  }

  /** The `favorite` action over the favorites. */
  function Favorite(s: Store, v: Viewer, m: Method, id: RecipeId): (r: Result<Store>)
    requires m == Post || m == Delete
    ensures r.Err? <==> RecipeToggle(s, s.favorites, v, m, id, AlreadyFavorited, NotFavorited).Err?
    ensures r.Err? ==> r.error == RecipeToggle(s, s.favorites, v, m, id, AlreadyFavorited, NotFavorited).error
    ensures r.Ok? ==> r.value == s.(favorites := r.value.favorites)
    ensures r.Ok? && m == Post ==> (v.id, id) !in s.favorites && r.value.favorites == s.favorites + {(v.id, id)}
    ensures r.Ok? && m == Delete ==> (v.id, id) in s.favorites && r.value.favorites == s.favorites - {(v.id, id)}
  {
    var favorites :- RecipeToggle(s, s.favorites, v, m, id, AlreadyFavorited, NotFavorited);
    Ok(s.(favorites := favorites))
  }

  /** A basket toggle by a known viewer keeps every constraint: it only
      adds a pair of a stored user and a stored recipe. */
  lemma ShoppingCartKeepsValid(s: Store, v: Viewer, m: Method, id: RecipeId)
    requires Valid(s) && ViewerKnown(s, v) && (m == Post || m == Delete)
    requires ShoppingCart(s, v, m, id).Ok?
    ensures Valid(ShoppingCart(s, v, m, id).value)
  {
    var t := ShoppingCart(s, v, m, id).value;
    CatalogKept(s, t);
    assert RecipesValid(t);
  }

  /** The same for a favorite toggle. */
  lemma FavoriteKeepsValid(s: Store, v: Viewer, m: Method, id: RecipeId)
    requires Valid(s) && ViewerKnown(s, v) && (m == Post || m == Delete)
    requires Favorite(s, v, m, id).Ok?
    ensures Valid(Favorite(s, v, m, id).value)
  {
    var t := Favorite(s, v, m, id).value;
    CatalogKept(s, t);
    assert RecipesValid(t);
  }

  /** POST then DELETE on the same recipe gives back the store; a second
      POST is refused. */
  lemma ShoppingCartRoundTrip(s: Store, v: Viewer, id: RecipeId)
    requires ShoppingCart(s, v, Post, id).Ok?
    ensures ShoppingCart(ShoppingCart(s, v, Post, id).value, v, Delete, id) == Ok(s)
    ensures ShoppingCart(ShoppingCart(s, v, Post, id).value, v, Post, id) == Err(BadRequest(AlreadyInBasket))
  {
    var t := ShoppingCart(s, v, Post, id).value;
    assert t.basket - {(v.id, id)} == s.basket;
  }

  lemma FavoriteRoundTrip(s: Store, v: Viewer, id: RecipeId)
    requires Favorite(s, v, Post, id).Ok?
    ensures Favorite(Favorite(s, v, Post, id).value, v, Delete, id) == Ok(s)
    ensures Favorite(Favorite(s, v, Post, id).value, v, Post, id) == Err(BadRequest(AlreadyFavorited))
  {
    var t := Favorite(s, v, Post, id).value;
    assert t.favorites - {(v.id, id)} == s.favorites;
  }

  // flags

  /** `get_is_favorited`. */
  function IsFavorited(s: Store, v: Viewer, id: RecipeId): (b: bool)
    ensures v.Anonymous? ==> !b
    ensures v.Member? ==> (b <==> (v.id, id) in s.favorites)
  {
    Toggles.Exists(s.favorites, v, id)
  }

  /** `get_is_in_shopping_cart`. */
  function IsInShoppingCart(s: Store, v: Viewer, id: RecipeId): (b: bool)
    ensures v.Anonymous? ==> !b
    ensures v.Member? ==> (b <==> (v.id, id) in s.basket)
  {
    Toggles.Exists(s.basket, v, id)
  }

  /** The flags follow the toggles: after a successful POST the viewer sees
      the recipe as favorited or in the basket, after a DELETE not. */
  lemma FlagsFollowToggles(s: Store, v: Viewer, m: Method, id: RecipeId)
    requires m == Post || m == Delete
    ensures ShoppingCart(s, v, m, id).Ok? ==>
              IsInShoppingCart(ShoppingCart(s, v, m, id).value, v, id) == (m == Post)
    ensures Favorite(s, v, m, id).Ok? ==>
              IsFavorited(Favorite(s, v, m, id).value, v, id) == (m == Post)
  {
  }
}
