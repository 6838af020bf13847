/** Outcomes of the application's operations.

    A request either succeeds with a value or fails with one of the error
    kinds the REST layer turns into a status code: a validation failure
    (400, tagged with what was wrong), a missing object (404), a refused
    permission (403), or an exception the code does not catch (500). */
module Results {

  datatype Option<+T> = None | Some(value: T)

  /** What a 400 response complains about. The application's own messages
      are localised texts; the model keeps one tag per message. */
  datatype Reason =
    | EmptyIngredients      // recipe without any ingredient line
    | DuplicateIngredient   // two lines name the same ingredient
    | AmountTooSmall        // an ingredient line with amount < 1
    | DuplicateTag          // the same tag id listed twice
    | CookingTimeTooSmall   // cooking_time < 1
    | CookingTimeTooLarge   // cooking_time above the column's range
    | NotAFile              // the image field did not yield a file
    | BadUsername           // the username check failed
    | UsernameTooLong       // a username over its 150-character limit
    | UsernameTaken         // another user already has this username
    | EmailTaken            // another user already has this email
    | SelfFollow            // a user tried to follow themselves
    | AlreadyFollowing      // the follow pair exists already
    | NotFollowing          // unfollow of a pair that does not exist
    | AlreadyInBasket       // basket add of a pair that exists already
    | NotInBasket           // basket removal of a pair that does not exist
    | AlreadyFavorited      // favorite add of a pair that exists already
    | NotFavorited          // favorite removal of a pair that does not exist
    | EmptyBasket           // shopping list requested with an empty basket

  datatype Error =
    | BadRequest(reason: Reason)
    | NotFound
    | Forbidden
    | ServerError

  datatype Result<+T> = Ok(value: T) | Err(error: Error) {

    predicate IsFailure() {
      Err?
    }

    function PropagateFailure<U>(): Result<U>
      requires Err?
    {
      Err(error)
    }

    function Extract(): T
      requires Ok?
    {
      value
    }
  }
}
