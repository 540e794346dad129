/** The errors the blog's handlers and serializers raise, with the exact
    text each one carries in the response's `detail`. */
module Errors {

  datatype Error =
    // ownership-guarded handlers for posts
    | NoPostFound
    | CannotUpdatePost
    | CannotDeletePost
    // ownership-guarded handlers for comments (the like handler reuses them)
    | NoCommentFound
    | CannotUpdateComment
    | CannotDeleteComment
    // profiles
    | NoProfileAssociated
    | ProfileExists
    // like creation
    | LikeBoth
    | AlreadyLikedComment
    | AlreadyLikedPost
    | NoLikeTarget
    // login and user creation
    | InvalidCredentials
    | NoEmail           // a ValueError nothing catches (HTTP 500)
    | UserExists        // `create_user`'s error for any unique clash; it names no field
    | EmailTaken        // the signup serializer's uniqueness error on `email`
    | UsernameTaken     // the signup serializer's uniqueness error on `username`
    // field validation done by the serializers before `create` runs
    | MissingField(field: string)
    | BlankField(field: string)
    | NullField(field: string)
    | InvalidPk(field: string, pk: nat)
    | TooLong(field: string, max: nat)
    | TooShort(field: string, min: nat)
    // a request key the handler indexes without checking (a KeyError, HTTP 500)
    | MissingKey(key: string)
    // `.id` taken of a null related object (an AttributeError, HTTP 500)
    | NullObject(field: string)

  /** Every response is either a value or the list of errors it reports. */
  datatype Result<T> = Ok(value: T) | Err(errors: seq<Error>)

  function Fail<T>(e: Error): Result<T> {
    Err([e])
  }

  function Digits(n: nat): string
    decreases n
  {
    var d := ["0", "1", "2", "3", "4", "5", "6", "7", "8", "9"][n % 10];
    if n < 10 then d else Digits(n / 10) + d
  }

  /** The human-readable `detail` text of each error. */
  function Message(e: Error): string {
    match e
    case NoPostFound => "No post found"
    case CannotUpdatePost => "You cannot update someone else post"
    case CannotDeletePost => "You cannot delete someone else post"
    case NoCommentFound => "No comment found"
    case CannotUpdateComment => "You cannot update someone else comment"
    case CannotDeleteComment => "You cannot delete someone else comment"
    case NoProfileAssociated => "No profile associated"
    case ProfileExists => "Profile exists"
    case LikeBoth => "You cannot like a comment and a post at the same time"
    case AlreadyLikedComment => "You already liked this comment"
    case AlreadyLikedPost => "You already liked this post"
    case NoLikeTarget => "You did not set the object you like"
    case InvalidCredentials => "Invalid credentials, try again"
    case NoEmail => "Users must have an email address or phone number"
    case UserExists => "A user with that email already exists."
    case EmailTaken => "A user with that email already exists."
    case UsernameTaken => "user with this username already exists."
    case MissingField(_) => "This field is required."
    case BlankField(_) => "This field may not be blank."
    case NullField(_) => "This field may not be null."
    case InvalidPk(_, pk) => "Invalid pk \"" + Digits(pk) + "\" - object does not exist."
    case TooLong(_, n) => "Ensure this field has no more than " + Digits(n) + " characters."
    case TooShort(_, n) => "Ensure this field has at least " + Digits(n) + " characters."
    case MissingKey(k) => "KeyError: '" + k + "'"
    case NullObject(_) => "AttributeError: 'NoneType' object has no attribute 'id'"
  }
}
