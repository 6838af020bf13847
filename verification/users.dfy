/** Users and subscriptions: the username check at registration, the
    Follow toggles (subscribe, unsubscribe), the subscription list, and the
    recipe list and count shown for each followed author. */
module Users {
  import opened Results
  import opened Seqs
  import opened Models
  import opened Permissions
  import Toggles

  // usernames

  /** `\w` over ASCII: a letter, a digit or the underscore. */
  predicate IsWordChar(c: char) {
    ('a' <= c <= 'z') || ('A' <= c <= 'Z') || ('0' <= c <= '9') || c == '_'
  }

  /** One character of the class `[\w.@+\-]`. */
  predicate IsUsernameChar(c: char) {
    IsWordChar(c) || c == '.' || c == '@' || c == '+' || c == '-'
  }

  /** The longest prefix of `value` made of username characters: what the
      greedy `[\w.@+\-]+` consumes when matched at position 0. */
  function LeadingRun(value: string): (n: nat)
    ensures n <= |value|
    ensures forall i | 0 <= i < n :: IsUsernameChar(value[i])
    ensures n < |value| ==> !IsUsernameChar(value[n])
  {
    if |value| == 0 || !IsUsernameChar(value[0]) then 0
    else 1 + LeadingRun(value[1..])
  }

  /** `validate_username` as written: `re.match` anchors the pattern only at
      the start, so a match needs just one username character in front. */
  function ValidateUsername(value: string): (r: Result<string>)
    ensures r.Ok? <==> |value| > 0 && IsUsernameChar(value[0])
    ensures r.Ok? ==> r.value == value
    ensures r.Err? ==> r.error == BadRequest(BadUsername)
  {
    if LeadingRun(value) >= 1 then Ok(value) else Err(BadRequest(BadUsername))
  }

  /** The check evidently meant, and the one the model field's username
      validator makes: the whole value is one or more username characters. */
  function ValidateUsernameFull(value: string): (r: Result<string>)
    ensures r.Ok? <==> |value| > 0 && forall i | 0 <= i < |value| :: IsUsernameChar(value[i])
    ensures r.Ok? ==> r.value == value
    ensures r.Err? ==> r.error == BadRequest(BadUsername)
  {
    if |value| > 0 && LeadingRun(value) == |value| then Ok(value) else Err(BadRequest(BadUsername))
  }

  /** "a b": the method accepts it, the full match refuses it. */
  lemma ValidateUsernameAcceptsSpace()
    ensures ValidateUsername("a b").Ok?
    ensures ValidateUsernameFull("a b").Err?
  {
    assert !IsUsernameChar("a b"[1]);
  }

  /** Every value the full match accepts, the method accepts too, so behind
      the field validator the method never refuses anything. */
  lemma FullMatchImpliesMethod(value: string)
    requires ValidateUsernameFull(value).Ok?
    ensures ValidateUsername(value) == Ok(value)
  {
  }

  /** The `max_length` of the username column. */
  const MaxUsernameLength: nat := 150

  /** Registration: the model field's checks on email and username (unique
      email; full pattern, uniqueness and length of the username), then
      `validate_username`, then the new user under a fresh id. The first
      failing check is reported. The create serializer exposes no staff
      flag, so a registered user is never staff. */
  function RegisterUser(s: Store, id: UserId, user: User): (r: Result<Store>)
    requires id !in s.users
    ensures r.Ok? <==> && ValidateUsernameFull(user.username).Ok?
                       && |user.username| <= MaxUsernameLength
                       && (forall k | k in s.users :: s.users[k].username != user.username)
                       && (forall k | k in s.users :: s.users[k].email != user.email)
    ensures r.Ok? ==> r.value == s.(users := s.users[id := user.(isStaff := false)])
    ensures r.Ok? ==> !r.value.users[id].isStaff
    ensures (exists k | k in s.users :: s.users[k].email == user.email) ==> r == Err(BadRequest(EmailTaken))
    ensures && (forall k | k in s.users :: s.users[k].email != user.email)
            && ValidateUsernameFull(user.username).Err?
            ==> r == Err(BadRequest(BadUsername))
    ensures && (forall k | k in s.users :: s.users[k].email != user.email)
            && ValidateUsernameFull(user.username).Ok?
            && (exists k | k in s.users :: s.users[k].username == user.username)
            ==> r == Err(BadRequest(UsernameTaken))
    ensures && (forall k | k in s.users :: s.users[k].email != user.email)
            && ValidateUsernameFull(user.username).Ok?
            && (forall k | k in s.users :: s.users[k].username != user.username)
            && |user.username| > MaxUsernameLength
            ==> r == Err(BadRequest(UsernameTooLong))
  {
    if exists k | k in s.users :: s.users[k].email == user.email then Err(BadRequest(EmailTaken))
    else
      var _ :- ValidateUsernameFull(user.username);
      if exists k | k in s.users :: s.users[k].username == user.username then Err(BadRequest(UsernameTaken))
      else if |user.username| > MaxUsernameLength then Err(BadRequest(UsernameTooLong))
      else
        match ValidateUsername(user.username)
        case Err(e) => Err(e)
        case Ok(_) => Ok(s.(users := s.users[id := user.(isStaff := false)]))
  }

  /** A registration keeps usernames and emails unique and every other
      constraint. */
  lemma RegisterKeepsValid(s: Store, id: UserId, user: User)
    requires Valid(s) && id !in s.users
    requires RegisterUser(s, id, user).Ok?
    ensures Valid(RegisterUser(s, id, user).value)
  {
    var t := RegisterUser(s, id, user).value;
    assert UsersUnique(t.users);
    assert RecipesValid(t) by {
      forall r | r in t.recipes ensures RecipeValid(t, t.recipes[r]) {
        assert RecipeValid(s, s.recipes[r]);
      }
    }
  }

  // follows

  /** `get_is_subscribed`, in both user serializers. */
  function IsSubscribed(s: Store, v: Viewer, author: UserId): (b: bool)
    ensures v.Anonymous? ==> !b
    ensures v.Member? ==> (b <==> (v.id, author) in s.follows)
  {
    Toggles.Exists(s.follows, v, author)
  }

  /** `FollowSerializer.validate`: no following oneself, no following twice. */
  function ValidateFollow(s: Store, u: UserId, author: UserId): (r: Result<()>)
    ensures r.Ok? <==> u != author && (u, author) !in s.follows
    ensures u == author ==> r == Err(BadRequest(SelfFollow))
    ensures u != author && (u, author) in s.follows ==> r == Err(BadRequest(AlreadyFollowing))
  {
    if u == author then Err(BadRequest(SelfFollow))
    else if (u, author) in s.follows then Err(BadRequest(AlreadyFollowing))
    else Ok(())
  }

  /** `subscribe`: signed-in viewers only, 404 for an unknown author, the
      serializer's checks, then `FollowSerializer.create` adds the pair. */
  function Subscribe(s: Store, v: Viewer, author: UserId): (r: Result<Store>)
    ensures !v.Member? <==> r == Err(Forbidden)
    ensures v.Member? ==> (author !in s.users <==> r == Err(NotFound))
    ensures v.Member? && author in s.users ==> (r.Err? <==> ValidateFollow(s, v.id, author).Err?)
    ensures v.Member? && author in s.users && r.Err? ==> r.error == ValidateFollow(s, v.id, author).error
    ensures r.Ok? ==> v.Member? && author in s.users && v.id != author && (v.id, author) !in s.follows
    ensures r.Ok? ==> r.value == s.(follows := s.follows + {(v.id, author)})
  {
    if !IsAuthenticatedOrAdmin(v) then Err(Forbidden)
    else if author !in s.users then Err(NotFound)
    else
      var _ :- ValidateFollow(s, v.id, author);
      match Toggles.Add(s.follows, v.id, author, AlreadyFollowing)
      case Err(e) => Err(e)
      case Ok(follows) =>
        assert follows == s.follows + {(v.id, author)};
        Ok(s.(follows := follows))
  }

  /** `delete_subscribe`: signed-in viewers only, 404 for an unknown author,
      400 when the viewer does not follow the author, else the pair goes. */
  function DeleteSubscribe(s: Store, v: Viewer, author: UserId): (r: Result<Store>)
    ensures !v.Member? <==> r == Err(Forbidden)
    ensures v.Member? ==> (author !in s.users <==> r == Err(NotFound))
    ensures v.Member? && author in s.users ==>
              (r == Err(BadRequest(NotFollowing)) <==> (v.id, author) !in s.follows)
    ensures r.Ok? ==> v.Member? && (v.id, author) in s.follows
    ensures r.Ok? ==> r.value == s.(follows := s.follows - {(v.id, author)})
    ensures v.Member? && author in s.users && (v.id, author) in s.follows ==>
              r == Ok(s.(follows := s.follows - {(v.id, author)}))
  {
    if !IsAuthenticatedOrAdmin(v) then Err(Forbidden)
    else if author !in s.users then Err(NotFound)
    else
      var follows :- Toggles.Remove(s.follows, v.id, author, NotFollowing);
      assert follows == s.follows - {(v.id, author)};
      Ok(s.(follows := follows))
  }

  /** A subscribe by a known viewer keeps the check constraint (no self
      follow), the uniqueness of follows and every other constraint. */
  lemma SubscribeKeepsValid(s: Store, v: Viewer, author: UserId)
    requires Valid(s) && ViewerKnown(s, v)
    requires Subscribe(s, v, author).Ok?
    ensures Valid(Subscribe(s, v, author).value)
  {
    var t := Subscribe(s, v, author).value;
    CatalogKept(s, t);
    assert RecipesValid(t);
  }

  lemma DeleteSubscribeKeepsValid(s: Store, v: Viewer, author: UserId)
    requires Valid(s)
    requires DeleteSubscribe(s, v, author).Ok?
    ensures Valid(DeleteSubscribe(s, v, author).value)
  {
    var t := DeleteSubscribe(s, v, author).value;
    CatalogKept(s, t);
    assert RecipesValid(t);
  }

  /** Subscribing then unsubscribing gives back the store; subscribing twice
      is refused; the flag follows the toggles. */
  lemma SubscribeRoundTrip(s: Store, v: Viewer, author: UserId)
    requires Subscribe(s, v, author).Ok?
    ensures DeleteSubscribe(Subscribe(s, v, author).value, v, author) == Ok(s)
    ensures Subscribe(Subscribe(s, v, author).value, v, author) == Err(BadRequest(AlreadyFollowing))
    ensures IsSubscribed(Subscribe(s, v, author).value, v, author)
  {
    var t := Subscribe(s, v, author).value;
    assert t.follows - {(v.id, author)} == s.follows;
  }

  /** `subscriptions`: the users the viewer follows. */
  function Subscriptions(s: Store, v: Viewer): (r: Result<set<UserId>>)
    requires FollowsValid(s)
    ensures !v.Member? <==> r == Err(Forbidden)
    ensures v.Member? ==> r.Ok?
    ensures r.Ok? ==> forall a :: a in r.value <==> (v.id, a) in s.follows
    ensures r.Ok? ==> v.id !in r.value && r.value <= s.users.Keys
  {
    if !IsAuthenticatedOrAdmin(v) then Err(Forbidden)
    else Ok(set a | a in s.users && (v.id, a) in s.follows)
  }

  /** The list follows the toggles: a subscribe adds exactly its author to
      it, an unsubscribe removes exactly its author. */
  lemma SubscriptionsFollowToggles(s: Store, v: Viewer, author: UserId)
    requires FollowsValid(s) && ViewerKnown(s, v) && v.Member?
    ensures Subscribe(s, v, author).Ok? ==>
              && FollowsValid(Subscribe(s, v, author).value)
              && Subscriptions(Subscribe(s, v, author).value, v).value == Subscriptions(s, v).value + {author}
    ensures DeleteSubscribe(s, v, author).Ok? ==>
              && FollowsValid(DeleteSubscribe(s, v, author).value)
              && Subscriptions(DeleteSubscribe(s, v, author).value, v).value == Subscriptions(s, v).value - {author}
  {
  }

  // an author's recipes

  /** `obj.recipes.all()`: the author's recipes, newest (highest id) first,
      as the recipe ordering `-id` gives them. */
  function AuthorRecipes(s: Store, author: UserId): (r: seq<RecipeId>)
    requires forall id | id in s.recipes :: id < s.nextRecipe
    ensures forall id: RecipeId :: id in r <==> id in s.recipes && s.recipes[id].author == author
    ensures forall i, j | 0 <= i < j < |r| :: r[i] > r[j]
    ensures NoDuplicates(r)
  {
    Below(s.nextRecipe, k => k in s.recipes && s.recipes[k].author == author)
  }

  /** `get_recipes_count`: the number of the author's recipes. */
  function RecipesCount(s: Store, author: UserId): (n: nat)
    requires forall id | id in s.recipes :: id < s.nextRecipe
    ensures n == |set id | id in s.recipes && s.recipes[id].author == author|
  {
    var r := AuthorRecipes(s, author);
    NoDuplicatesIffFullSet(r);
    assert Elements(r) == set id | id in s.recipes && s.recipes[id].author == author;
    |r|
  }

  /** `get_recipes`: all of the author's recipes, or the first `limit` of
      them when `recipes_limit` is given. A negative limit makes the slice
      raise, which nothing catches. */
  function GetRecipes(s: Store, author: UserId, limit: Option<int>): (r: Result<seq<RecipeId>>)
    requires forall id | id in s.recipes :: id < s.nextRecipe
    ensures r.Err? <==> limit.Some? && limit.value < 0
    ensures r.Err? ==> r.error == ServerError
    ensures r.Ok? ==> forall id | id in r.value :: id in s.recipes && s.recipes[id].author == author
    ensures r.Ok? && limit.None? ==> |r.value| == RecipesCount(s, author)
    ensures r.Ok? && limit.Some? ==>
              |r.value| == if limit.value < RecipesCount(s, author) then limit.value else RecipesCount(s, author)
    ensures r.Ok? ==> r.value == AuthorRecipes(s, author)[..|r.value|]
    ensures r.Ok? ==> forall a, b | a in r.value && b in AuthorRecipes(s, author) && b !in r.value :: b < a
  {
    var all := AuthorRecipes(s, author);
    match limit
    case None => Ok(all)
    case Some(n) =>
      if n < 0 then Err(ServerError)
      else
        var k := if n < |all| then n else |all|;
        PrefixIsNewest(all, k);
        Ok(all[..k])
  }

  /** In a sequence that falls strictly, every element of a prefix is larger
      than every element after it. */
  lemma PrefixIsNewest(all: seq<RecipeId>, k: nat)
    requires k <= |all|
    requires forall i, j | 0 <= i < j < |all| :: all[i] > all[j]
    ensures forall a, b | a in all[..k] && b in all && b !in all[..k] :: b < a
  {
    var taken := all[..k];
    assert forall j | 0 <= j < k :: all[j] == taken[j] && taken[j] in taken;
    forall a, b | a in taken && b in all && b !in taken ensures b < a {
      var i :| 0 <= i < k && all[i] == a;
      var j :| 0 <= j < |all| && all[j] == b;
    }
  }

  /** The count does not depend on the limit, and a limited list is never
      longer than it. */
  lemma CountIgnoresLimit(s: Store, author: UserId, limit: Option<int>)
    requires forall id | id in s.recipes :: id < s.nextRecipe
    requires GetRecipes(s, author, limit).Ok?
    ensures |GetRecipes(s, author, limit).value| <= RecipesCount(s, author)
    ensures GetRecipes(s, author, None) == Ok(AuthorRecipes(s, author))
  {
  }
}
