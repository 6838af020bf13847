# foodgram core in Dafny

This is a model of the domain core of foodgram, a Django REST recipe-sharing service. Users publish recipes with tags and ingredient amounts. They favorite recipes, put them in a shopping basket and follow authors. They can also download a shopping list that sums the ingredients of every recipe in their basket.

The model keeps the database as one immutable value, `Models.Store`:
- users, tags, ingredients and recipes are maps from ids to records;
- the IngredientRecipe table (shared `(ingredient, amount)` rows) is a `Pool` with its own id counter;
- the Favorites, Basket and Follow tables are sets of pairs.

Every operation is a pure function. Most return a `Result`: on success the new store, on refusal (`BadRequest(reason)`, `NotFound` or `Forbidden`) nothing, so nothing is written. `ServerError` stands for an exception that nothing in the code catches. The model assumes the database's autocommit mode, in which each statement commits on its own. Recipe `create` and `update` write in several statements, so a request that fails part-way leaves the earlier writes behind. Those two therefore return an `Outcome`: the result together with the store they leave, even on failure. The endpoints use them as written. Corrected, all-checks-first versions sit beside them (see Findings).

Files and modules:
- `results.dfy` (`Results`): `Option`, `Result` and the error reasons.
- `seqs.dfy` (`Seqs`): duplicate freedom and its set-size test, and `Below`, which scans an id column highest first.
- `image.dfy` (`Base64Image`): the data-URL image field.
- `models.dfy` (`Models`): entities, schema constraints (`Valid`) and the recipe delete cascade.
- `permissions.dfy` (`Permissions`): the two permission classes.
- `toggles.dfy` (`Toggles`): add, remove and exists, shared by Favorites, Basket and Follow.
- `recipes.dfy` (`RecipeWrites`): `validate_ingredients`, `validate_tags`, `add_ingredients`, `create` and `update`.
- `recipeviews.dfy` (`RecipeViews`): the recipe endpoints, the basket and favorite actions, and the two flags.
- `shopping.dfy` (`ShoppingList`): the shopping-list join, grouping and text rendering.
- `users.dfy` (`Users`): the username check, registration uniqueness, subscriptions, and the author recipe list and count.

The request user is a `Viewer`: `Anonymous`, or `Member(id, isStaff)`. Framework behaviour the code relies on is modelled explicitly:
- an anonymous user is never staff;
- the safe methods are GET, HEAD and OPTIONS;
- `is_valid` checks the image and `cooking_time >= 1` before `create` or `update` runs;
- `validate_tags` and `validate_ingredients` run only because `create` and `update` call them, since those fields are read-only.

## Model

| member | source | states |
|---|---|---|
| `Base64Image.SplitInTwo` | backend/foodgram/api/serializers.py:50 | The two-way unpacking of `split(';base64,')` succeeds exactly when the separator occurs and no second, non-overlapping occurrence follows. The parts around the one occurrence rebuild the input. |
| `Base64Image.AfterLast` | backend/foodgram/api/serializers.py:51 | `split('/')[-1]` is a suffix of the input with no `/` in it. When it is shorter than the input, a `/` stands right before it. |
| `Base64Image.Decode` | backend/foodgram/api/serializers.py:47-53 | Anything that is not text starting with `data:image` passes unchanged. Data-URL text fails (uncaught) exactly when the split fails. Otherwise the upload is named `temp.` plus the text after the last `/` of the part before `;base64,`, and it holds the part after it. |
| `Base64Image.DataUrlRoundTrip` | backend/foodgram/api/serializers.py:47-53 | Decoding `data:image/<ext>;base64,<payload>` gives the file `temp.<ext>` holding the payload. |
| `Base64Image.FieldValue` | backend/foodgram/api/serializers.py:47-53 | The image field accepts an upload as it is, and refuses text without the data-URL prefix as not a file. Data-URL text gives an uncaught error exactly when the split fails. Otherwise it gives the file `temp.` plus the media subtype, holding the payload. |
| `Permissions.AuthorOrAdminOrReadOnly` | backend/foodgram/api/permissions.py:5-8 | The view-level check passes for safe methods, signed-in users and staff. It fails exactly for an unsafe method by an anonymous user. |
| `Permissions.AuthorOrAdminOrReadOnlyObject` | backend/foodgram/api/permissions.py:10-14 | The object check passes for the object's author, for safe methods and for staff. It fails for an unsafe method by anyone else. |
| `Permissions.IsAuthenticatedOrAdmin` | backend/foodgram/api/permissions.py:17-19 | False exactly when the user is neither signed in nor staff, which means exactly the anonymous user. |
| `Permissions.WritesNeedAuthorOrStaff` | backend/foodgram/api/permissions.py:4-14 | An unsafe request that passes both checks comes from a signed-in author or staff member. |
| `Toggles.Add` | backend/foodgram/api/views.py:92-103 | Adding a pair fails with the given reason exactly when the pair is present. Otherwise the pair is stored and no other pair changes. |
| `Toggles.Remove` | backend/foodgram/api/views.py:104-110 | Removing a pair fails exactly when the pair is absent. Otherwise the pair goes and no other pair changes. |
| `Toggles.Exists` | backend/foodgram/api/serializers.py:121-128 | False for an anonymous viewer. Otherwise, membership of the viewer's pair. |
| `Toggles.AddThenRemove` | backend/foodgram/api/views.py:92-110 | A remove right after a successful add restores the relation. |
| `Toggles.RemoveThenAdd` | backend/foodgram/api/views.py:92-110 | An add right after a successful remove restores the relation. |
| `Toggles.AddTwice` | backend/foodgram/recipes/models.py:150-155 | A second add of the same pair is refused, so a pair is stored at most once. After the first add the viewer's flag is set. |
| `Models.DeleteRecipe` | backend/foodgram/recipes/models.py:140-173 | Deleting a recipe removes it and every Favorites and Basket row naming it. Every other recipe, favorite, basket row, follow and IngredientRecipe row stays, and so do the users, tags, ingredients and id counters. |
| `Models.DeleteRecipeKeepsValid` | backend/foodgram/recipes/models.py:133-183 | The cascade keeps every schema constraint. In particular, no relation row is left pointing at a missing recipe. |
| `RecipeWrites.CheckLines` | backend/foodgram/api/serializers.py:145-161 | The per-line loop accepts exactly when every remaining line passes. Otherwise it reports the first failing line's error: unknown ingredient (404), then a repeat of an earlier ingredient, then amount below 1. |
| `RecipeWrites.AllPassIffValid` | backend/foodgram/api/serializers.py:146-161 | The three checks passing on every line, in order, is the same as an order-free condition: stored ingredients, no ingredient twice, every amount at least 1. |
| `RecipeWrites.ValidateIngredients` | backend/foodgram/api/serializers.py:139-162 | An empty list is refused. Otherwise the list is accepted exactly when it is acceptable, and it comes back unchanged. A refusal carries the first failing line's error. |
| `RecipeWrites.ValidateTags` | backend/foodgram/api/serializers.py:164-171 | Accepts exactly the duplicate-free lists, returned unchanged. Otherwise it refuses with the duplicate-tag error. |
| `Seqs.NoDuplicatesIffFullSet` | backend/foodgram/api/serializers.py:165-166 | The set-size test `len(set(value)) != len(value)` detects exactly the lists with a repeated element. |
| `RecipeWrites.GetOrCreate` | backend/foodgram/api/serializers.py:92-95 | `get_or_create` returns a row holding exactly the requested pair. When such a row exists the table is unchanged. Any row it adds holds that pair, no existing row changes, and pairs stay unique. |
| `RecipeWrites.AddIngredients` | backend/foodgram/api/serializers.py:90-97 | After `add_ingredients`, the pairs the recipe's rows hold are exactly the old pairs plus the pairs the lines ask for. Every new table row comes from a line, no old row changes, and pairs stay unique. |
| `RecipeWrites.LinkedRowsDistinct` | backend/foodgram/api/serializers.py:90-97 | Rows linked from an accepted list name each ingredient once, and there is at least one. |
| `RecipeWrites.AddedPoolValid` | backend/foodgram/recipes/models.py:62-81 | Linking accepted lines keeps the IngredientRecipe table valid: every amount at least 1, every ingredient stored, every pair unique. |
| `RecipeWrites.ValidateFields` | backend/foodgram/recipes/models.py:118-122 | The field checks `create` and `update` rely on pass exactly when the image field yields a file and the cooking time is between 1 and 2147483647, the positive-integer column's range. The image field is checked first, and each refusal carries its own error. |
| `RecipeWrites.Write` | backend/foodgram/api/serializers.py:104-106 | Stores the recipe with the requested scalar fields, exactly the requested tag set and one row pair per line. Existing IngredientRecipe rows stay, and each new row holds a requested pair, as `get_or_create` makes it. The recipe id counter moves only for a new recipe. No other recipe, relation or catalog entry changes. |
| `RecipeWrites.WriteKeepsValid` | backend/foodgram/recipes/models.py:62-122 | Writing an accepted request keeps every schema constraint. |
| `RecipeWrites.CreateRecipe` | backend/foodgram/api/serializers.py:99-106 | The as-written `create` succeeds exactly for acceptable requests. Each refusal carries its check's error, in order: fields, duplicate tag, then the first failing ingredient line (or the empty list), each leaving the store unchanged. An unknown tag then gives an uncaught error that leaves the inserted recipe row behind, with no tags or ingredients. A success stores a fresh recipe holding exactly the request. |
| `RecipeWrites.InsertRecipe` | backend/foodgram/api/serializers.py:104 | `Recipe.objects.create` adds one recipe under the next id with the requested fields and no links, and changes no other recipe. |
| `RecipeWrites.CreateLeavesBareRecipe` | backend/foodgram/api/serializers.py:104-105 | An otherwise acceptable create naming an unknown tag fails, yet leaves a recipe with no ingredient. The store it leaves breaks the constraints. |
| `RecipeWrites.CreateRecipeAtomic` | backend/foodgram/api/serializers.py:99-106 | The corrected create runs every check, tag existence included, before writing. It has the same errors in the same order and succeeds exactly for acceptable requests, writing nothing on refusal. |
| `RecipeWrites.CreateAtomicKeepsValid` | backend/foodgram/api/serializers.py:99-106 | An acceptable atomic create succeeds and keeps every constraint. |
| `RecipeWrites.CreatesAgree` | backend/foodgram/api/serializers.py:99-106 | Both creates store the same recipe on acceptable requests and report the same error on the rest. |
| `RecipeWrites.CreateKeepsValid` | backend/foodgram/api/serializers.py:99-106 | An acceptable request by a stored user is created, and the store it leaves meets every constraint. |
| `RecipeWrites.SaveFields` | backend/foodgram/api/serializers.py:109 | `super().update` changes only the recipe's name, text, image and cooking time. |
| `RecipeWrites.ClearTags` | backend/foodgram/api/serializers.py:114 | `tags.clear()` empties the recipe's tags and changes nothing else. |
| `RecipeWrites.WriteOverSaved` | backend/foodgram/api/serializers.py:109-118 | The final write does not depend on the scalar fields saved earlier. |
| `RecipeWrites.UpdateRecipe` | backend/foodgram/api/serializers.py:108-119 | The as-written `update` succeeds exactly for acceptable requests and then replaces the tags and rows wholesale. Each refusal carries its check's error in order. Once the fields pass, a refusal still leaves the new scalar fields saved. An unknown tag also leaves the recipe's tags cleared. |
| `RecipeWrites.UpdateRefusedStore` | backend/foodgram/api/serializers.py:109-115 | A refused update whose fields passed leaves the saved fields. When the refusal came from an unknown tag, it also leaves no tag links. |
| `RecipeWrites.UpdateKeepsValid` | backend/foodgram/api/serializers.py:108-119 | Whatever the as-written update does, the store it leaves meets every constraint. |
| `RecipeWrites.UpdateLeaksScalarFields` | backend/foodgram/api/serializers.py:108-113 | An update with no ingredient lines and a new name is refused (empty ingredients) yet changes the recipe's name. The atomic update refuses it without writing. |
| `RecipeWrites.UpdateRecipeAtomic` | backend/foodgram/api/serializers.py:108-119 | The corrected update runs every check before writing, with the same errors in the same order. It succeeds exactly for acceptable requests, with the same result as the final write. |
| `RecipeWrites.UpdateAtomicKeepsValid` | backend/foodgram/api/serializers.py:108-119 | An acceptable atomic update succeeds and keeps every constraint. |
| `RecipeWrites.UpdatesAgreeOnSuccess` | backend/foodgram/api/serializers.py:108-119 | On an accepted request both updates leave the same store. |
| `RecipeWrites.UpdatesAgreeOnRefusal` | backend/foodgram/api/serializers.py:108-119 | On a refused request both updates report the same error. |
| `RecipeViews.CreateEndpoint` | backend/foodgram/api/views.py:53-54 | Anonymous users are refused with nothing written. A signed-in user's request runs the as-written `create` with that user as author, so a created recipe is new and its author is the requesting user. |
| `RecipeViews.UpdateEndpoint` | backend/foodgram/api/views.py:46-49 | Order of checks: permission (403), then unknown recipe (404), then author or staff (403), each writing nothing. Then the as-written `update`: it succeeds exactly for acceptable requests and keeps the recipe's author. A later refusal still leaves the new scalar fields saved. |
| `RecipeViews.DeleteEndpoint` | backend/foodgram/api/views.py:46-49 | Same checks as update, including 403 for a member who is neither author nor staff. A delete by the author or staff is exactly the cascade: the recipe and its favorite and basket rows go, and nothing else changes. |
| `RecipeViews.CreateEndpointKeepsValid` | backend/foodgram/api/views.py:53-54 | An acceptable request by a signed-in user is created through the endpoint, and every constraint still holds. |
| `RecipeViews.UpdateEndpointKeepsValid` | backend/foodgram/api/views.py:46-49 | Whatever the update endpoint answers, including a refusal that saved fields or cleared tags, the store it leaves meets every constraint. |
| `RecipeViews.DeleteEndpointKeepsValid` | backend/foodgram/api/views.py:46-49 | Deleting through the endpoint keeps every constraint. |
| `RecipeViews.RecipeToggle` | backend/foodgram/api/views.py:82-110 | Order: anonymous 403, unknown recipe 404. POST adds exactly the pair, or gives a 400 when it is present. DELETE removes exactly the pair, or gives a 400 when it is absent. |
| `RecipeViews.ShoppingCart` | backend/foodgram/api/views.py:82-110 | The basket action: same refusals as `RecipeToggle`. It adds or removes exactly the viewer's pair and leaves the rest of the store unchanged. |
| `RecipeViews.Favorite` | backend/foodgram/api/views.py:112-140 | The favorite action, with the same contract over Favorites. |
| `RecipeViews.ShoppingCartKeepsValid` | backend/foodgram/recipes/models.py:161-183 | A basket toggle by a stored user keeps every constraint. |
| `RecipeViews.FavoriteKeepsValid` | backend/foodgram/recipes/models.py:133-155 | A favorite toggle by a stored user keeps every constraint. |
| `RecipeViews.ShoppingCartRoundTrip` | backend/foodgram/api/views.py:92-110 | POST then DELETE restores the store. A repeated POST is refused as already in the basket. |
| `RecipeViews.FavoriteRoundTrip` | backend/foodgram/api/views.py:122-140 | POST then DELETE restores the store. A repeated POST is refused as already favorited. |
| `RecipeViews.IsFavorited` | backend/foodgram/api/serializers.py:121-128 | `is_favorited` is false for an anonymous viewer. Otherwise it reports whether the pair is in Favorites. |
| `RecipeViews.IsInShoppingCart` | backend/foodgram/api/serializers.py:130-137 | `is_in_shopping_cart` is false for an anonymous viewer. Otherwise it reports whether the pair is in Basket. |
| `RecipeViews.FlagsFollowToggles` | backend/foodgram/api/serializers.py:121-137 | After a successful POST the flag is true; after a successful DELETE it is false. |
| `ShoppingList.BasketRecipes` | backend/foodgram/api/views.py:65-66 | Exactly the stored recipes in the user's basket, each once. |
| `ShoppingList.JoinFrom` | backend/foodgram/api/views.py:65-66 | The join holds exactly one (recipe, row) pair per listed recipe and each row linked to it, with no repeats. |
| `ShoppingList.Join` | backend/foodgram/api/views.py:65-66 | A pair is in the user's join exactly when its recipe is stored and in the basket and its row is linked to that recipe. Each pair appears once, so a shared row counts once per basket recipe. |
| `ShoppingList.Insert` | backend/foodgram/api/views.py:67-70 | Adding an item keeps group keys distinct and adds its key. The item's amount is added to its key's total and to no other. |
| `ShoppingList.Group` | backend/foodgram/api/views.py:67-70 | `values(name, unit).annotate(Sum)` gives one group per distinct key. Each group's amount equals the reference sum over the items. |
| `ShoppingList.GroupSums` | backend/foodgram/api/views.py:67-70 | Every group holds the sum of its own key's amounts. |
| `ShoppingList.ShoppingGroups` | backend/foodgram/api/views.py:65-70 | The user's groups: distinct (name, unit) keys, exactly those in the join. Each total is the sum of the joined amounts for that key. |
| `ShoppingList.NatDigits` | backend/foodgram/api/views.py:75 | An amount prints as one or more decimal digits with no leading zero. |
| `ShoppingList.IntToStringRoundTrip` | backend/foodgram/api/views.py:73-76 | The printed amount reads back as the amount, including a sign. |
| `ShoppingList.RenderAppend` | backend/foodgram/api/views.py:71-77 | The report of two group lists is the concatenation of their reports. |
| `ShoppingList.RenderHasLine` | backend/foodgram/api/views.py:71-77 | Each group contributes its line `* name (unit) -- total` followed by a blank line, between the lines before it and the lines after it. |
| `ShoppingList.DownloadShoppingCart` | backend/foodgram/api/views.py:56-80 | Anonymous users are refused. A signed-in user with no basket row gets the empty-basket 400. A signed-in user with a basket row always gets the report of their groups. |
| `ShoppingList.NonEmptyBasketGivesLines` | backend/foodgram/api/views.py:58-77 | In a valid store a non-empty basket always gives a non-empty report. |
| `Users.LeadingRun` | backend/foodgram/users/serializers.py:33 | The greedy class run at position 0: all username characters, stopped by a non-member or the end. |
| `Users.ValidateUsername` | backend/foodgram/users/serializers.py:32-35 | The as-written check accepts exactly the values whose first character is a word character or one of `.@+-`, and returns them unchanged. |
| `Users.ValidateUsernameAcceptsSpace` | backend/foodgram/users/serializers.py:32-35 | `"a b"` passes the as-written check and fails the full match. |
| `Users.ValidateUsernameFull` | backend/foodgram/users/serializers.py:32-35 | The full match accepts exactly the non-empty values made only of those characters. |
| `Users.FullMatchImpliesMethod` | backend/foodgram/users/serializers.py:33 | Whatever passes the full match passes the as-written check. |
| `Users.RegisterUser` | backend/foodgram/users/models.py:6-19 | Registration succeeds exactly for a well-formed username of at most 150 characters and an unused username and email. It adds just that user, never as staff, since the create serializer has no staff field. Each refusal carries its own 400, checked in order: used email, malformed username, used username, over-long username. |
| `Users.RegisterKeepsValid` | backend/foodgram/users/models.py:6-19 | Registration keeps usernames and emails unique, along with every other constraint. |
| `Users.IsSubscribed` | backend/foodgram/users/serializers.py:52-59 | `is_subscribed` is false for an anonymous viewer. Otherwise it reports whether the pair is in Follow. |
| `Users.ValidateFollow` | backend/foodgram/users/serializers.py:106-122 | Following oneself is refused first, then following twice. It passes exactly when neither applies. |
| `Users.Subscribe` | backend/foodgram/users/views.py:35-51 | Order: anonymous 403, unknown author 404, then the follow checks. On success exactly the pair (user, author) is added and nothing else changes. |
| `Users.DeleteSubscribe` | backend/foodgram/users/views.py:53-68 | Order: anonymous 403, unknown author 404, then a 400 exactly when the pair is absent. When the pair is present the call succeeds, removing exactly that pair. |
| `Users.SubscribeKeepsValid` | backend/foodgram/users/models.py:59-69 | A subscribe keeps the no-self-follow check and every other constraint. |
| `Users.DeleteSubscribeKeepsValid` | backend/foodgram/users/models.py:45-69 | An unsubscribe keeps every constraint. |
| `Users.SubscribeRoundTrip` | backend/foodgram/users/views.py:35-68 | Subscribe then unsubscribe restores the store. A second subscribe is refused. After subscribing the flag is set. |
| `Users.Subscriptions` | backend/foodgram/users/views.py:24-33 | Every signed-in viewer gets a list: exactly the authors they follow, never themselves, all stored users. Anonymous users are refused. |
| `Users.SubscriptionsFollowToggles` | backend/foodgram/users/views.py:24-68 | A successful subscribe adds exactly its author to the viewer's list, and a successful unsubscribe removes exactly that author. |
| `Users.AuthorRecipes` | backend/foodgram/users/serializers.py:87 | Exactly the author's recipes, newest (highest id) first, each once. |
| `Users.RecipesCount` | backend/foodgram/users/serializers.py:81-82 | The count is the size of the set of the author's recipes. |
| `Users.GetRecipes` | backend/foodgram/users/serializers.py:84-95 | With no limit, all the author's recipes, newest first. With limit n >= 0, the first min(n, count) of that newest-first list. A negative limit raises. |
| `Users.PrefixIsNewest` | backend/foodgram/users/serializers.py:88-89 | A slice of the newest-first list takes recipes newer than every one it leaves out. |
| `Users.CountIgnoresLimit` | backend/foodgram/users/serializers.py:81-95 | A list cut by `recipes_limit` is never longer than the count. With no limit the list is all the author's recipes, newest first. |

## Left out

- Database, HTTP and framework plumbing are not modelled: the ORM, response bodies and status codes (results carry error tags), pagination, serializer output shapes and djoser's own views.
- The admin modules are not modelled: they only register admin pages.
- The `filters` module is not part of this model.
- `b64decode` and the image checks of the image field are not modelled. The payload is opaque text, and the only failure modelled is the split's.
- Some field checks are not modelled: name and text length and blankness, the length limits of email, first name, last name and password, email format, password checks, and the `int()` parse of amounts and of `recipes_limit`. Amounts are integers, and `recipes_limit` is `None` when absent or empty. The username's length limit and the cooking time's range are modelled.
- `RecipeWrites.CreateRecipe`: an ingredient amount above the positive-integer column's range (2147483647) is not modelled. Nothing validates it, so what happens depends on the database backend. On PostgreSQL it fails with an uncaught error inside `add_ingredients`, after the recipe row and its tags were written. The model's amounts are unbounded, so this member accepts such a request.
- `RecipeWrites.UpdateRecipe`: the same out-of-range amount is not modelled for the update either. On PostgreSQL it fails inside `add_ingredients` after the fields, the tags and the cleared links were written. The model accepts it.
- Missing `tags` or `ingredients` keys are not modelled (they raise on `set(None)` and `len(None)`). A request always carries both lists.
- A URL id that is not a number is not modelled (it raises inside the lookup). Ids are naturals.
- When several fields fail, the framework's combined error report is not modelled. The model reports the first failure in the order the code reaches it.
- PATCH partial updates are not modelled: an update carries every field.
- Transaction settings are not part of this model. The model assumes autocommit, where each statement commits on its own. Under request-wide transactions a failed `create` or `update` would be rolled back whole, which is what `RecipeWrites.CreateRecipeAtomic` and `RecipeWrites.UpdateRecipeAtomic` describe.
- Cascades from deleting a user, an ingredient or a tag are not modelled: no operation here deletes one.
- Concurrency and races between two adds of the same pair are not modelled: operations are sequential steps on one store.
- The line order of the shopping list is not modelled, because the query does not fix one. The model lists groups in first-appearance order, and every property is stated per group.
- `\w` is modelled as ASCII letters, digits and underscore. Python's Unicode word characters are not.
- The 401 that signed-out users get from the framework's authentication is modelled as `Forbidden`.
- `Users.Subscribe`: after `create`, the serializer's `save()` re-saves the author with no changed field. That is modelled as no change.
- Where the code and the documented intent differ, the model follows the code:
  - `update` saves the scalar fields before validating; it does not clear the links first.
  - `create` is not atomic: an unknown tag id fails after the recipe row was inserted, and the row stays.
  - The shopping list groups by ingredient (name, unit). Since ingredient names are unique, this is the same as grouping by ingredient.

## Findings

| source | as written | input that shows it | evidently intended | confidence | as-written member | corrected member |
|---|---|---|---|---|---|---|
| backend/foodgram/users/serializers.py:33 | `re.match` anchors the pattern only at the start, so one leading username character is enough. | username `"a b"` | the whole username made of `[\w.@+-]` characters (a full match) | low impact, since the model field's username validator already refuses such values; not executed | `Users.ValidateUsername`, `Users.ValidateUsernameAcceptsSpace` | `Users.ValidateUsernameFull` |
| backend/foodgram/api/serializers.py:108-113 | `super().update` saves name, text, image and cooking time before `validate_tags` and `validate_ingredients` run. | an update with a new name and `"ingredients": []`: a 400 reply, yet the new name is stored | validate everything, then write | medium, because request-wide transactions would roll the write back and the settings are not part of this model; not executed | `RecipeWrites.UpdateRecipe`, `RecipeWrites.UpdateLeaksScalarFields` | `RecipeWrites.UpdateRecipeAtomic` |
| backend/foodgram/api/serializers.py:104-106 | The recipe row is inserted before the tag links. An unknown tag id makes the link insert fail: on a backend that enforces foreign keys, `set()`'s atomic block raises when it commits. Nothing removes the row. | a create with valid fields and ingredients and `"tags": [<an id with no tag>]`: a server error, yet a recipe with no tags and no ingredients is stored | check that every tag exists before inserting anything, or write atomically | medium, because request-wide transactions would roll the row back and the settings are not part of this model; not executed | `RecipeWrites.CreateRecipe`, `RecipeWrites.CreateLeavesBareRecipe` | `RecipeWrites.CreateRecipeAtomic` |
