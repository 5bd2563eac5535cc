/** The validation and shaping logic of api/serializers.py for titles,
    reviews and users. Field checks DRF derives from the model run before
    the serializer's own `validate`. */
module Serializers {
  import opened Results
  import opened Usernames
  import opened Users
  import Catalogue
  import Text

  // ---------------------------------------------------------------- titles

  datatype TitleError = YearAboveLimit(limit: int) | FutureYear | NoGenre

  /** The year checks AS WRITTEN. The model field's validator is
      `MaxValueValidator(datetime.now().year)`, evaluated once when the
      module is imported (`importYear`); the serializer field DRF derives
      from it refuses a larger year before TitleSerializer.validate compares
      the year with the clock at request time (`currentYear`). */
  function ValidateYearAsWritten(year: Option<int>, importYear: int, currentYear: int): (r: Result<Option<int>, TitleError>)
    ensures r.Ok? <==> year.None? || (year.value <= importYear && year.value <= currentYear)
    ensures r.Ok? ==> r.value == year
  {
    if year.Some? && year.value > importYear then Err(YearAboveLimit(importYear))
    else if year.Some? && year.value > currentYear then Err(FutureYear)
    else Ok(year)
  }

  /** TitleSerializer.validate: a year is refused only when present and
      later than the current year. This is the bound the model uses. */
  function ValidateYear(year: Option<int>, currentYear: int): (r: Result<Option<int>, TitleError>)
    ensures r.Ok? <==> year.None? || year.value <= currentYear
    ensures r.Ok? ==> r.value == year
    ensures r.Err? ==> r.error == FutureYear
  {
    if year.Some? && year.value > currentYear then Err(FutureYear) else Ok(year)
  }

  /** A process started in one year still refuses the next year's titles
      once that year has begun, although they are not in the future. */
  lemma YearBoundFrozenAtImport()
    ensures ValidateYearAsWritten(Some(2026), 2025, 2026) == Err(YearAboveLimit(2025))
    ensures ValidateYear(Some(2026), 2026) == Ok(Some(2026))
  {
  }

  /** The two agree while the process runs in the year it started, and the
      frozen bound never accepts what the intended one refuses. */
  lemma YearChecksAgreeInImportYear(year: Option<int>, importYear: int, currentYear: int)
    requires importYear <= currentYear
    ensures ValidateYearAsWritten(year, importYear, currentYear).Ok? ==> ValidateYear(year, currentYear).Ok?
    ensures importYear == currentYear ==>
      ValidateYearAsWritten(year, importYear, currentYear).Ok? == ValidateYear(year, currentYear).Ok?
  {
  }

  /** TitleSerializer.validate_genre: at least one genre. */
  function ValidateGenre<G>(genres: seq<G>): (r: Result<seq<G>, TitleError>)
    ensures r.Ok? <==> |genres| > 0
    ensures r.Ok? ==> r.value == genres
    ensures r.Err? ==> r.error == NoGenre
  {
    if |genres| == 0 then Err(NoGenre) else Ok(genres)
  }

  /** TitleSerializer.to_representation: the read-only nested values
      `genre_read` and `category_read` replace `genre` and `category`. */
  function ToRepresentation<V>(data: map<string, V>): (r: map<string, V>)
    ensures "genre_read" !in r && "category_read" !in r
    ensures "genre_read" in data ==> "genre" in r && r["genre"] == data["genre_read"]
    ensures "category_read" in data ==> "category" in r && r["category"] == data["category_read"]
    ensures "genre_read" !in data ==> ("genre" in r <==> "genre" in data)
    ensures "genre_read" !in data && "genre" in data ==> r["genre"] == data["genre"]
    ensures "category_read" !in data ==> ("category" in r <==> "category" in data)
    ensures "category_read" !in data && "category" in data ==> r["category"] == data["category"]
    ensures forall k :: k !in {"genre", "category", "genre_read", "category_read"} ==>
      (k in r <==> k in data) && (k in r ==> r[k] == data[k])
  {
    var withGenre := if "genre_read" in data
      then (data - {"genre_read"})["genre" := data["genre_read"]]
      else data;
    if "category_read" in withGenre
    then (withGenre - {"category_read"})["category" := withGenre["category_read"]]
    else withGenre
  }

  // --------------------------------------------------------------- reviews

  datatype ReviewError = TextBlank | Score(scoreError: Catalogue.ScoreError) | AlreadyReviewed | TitleNotFound

  /** Whether `author` has already reviewed `title`. */
  predicate HasReviewed(reviews: map<Catalogue.Id, Catalogue.Review>, author: Catalogue.Id, title: Catalogue.Id) {
    exists k :: k in reviews && reviews[k].author == author && reviews[k].title == title
  }

  /** ReviewSerializer.validate: on POST, one review per author and title;
      other methods pass the data through. */
  function ValidateReview<D>(verb: string, reviews: map<Catalogue.Id, Catalogue.Review>,
                             title: Catalogue.Id, author: Catalogue.Id, data: D): (r: Result<D, ReviewError>)
    ensures r.Ok? ==> r.value == data
    ensures r.Err? <==> verb == "POST" && HasReviewed(reviews, author, title)
    ensures r.Err? ==> r.error == AlreadyReviewed
  {
    if verb == "POST" && HasReviewed(reviews, author, title) then Err(AlreadyReviewed) else Ok(data)
  }

  /** The fields DRF derives from the Review model, in model order: `text`
      is required, refused when blank and kept stripped; then the score
      validators. */
  function ValidateReviewFields(text: string, score: int): (r: Result<(string, int), ReviewError>)
    ensures r.Ok? <==> Text.Strip(text) != "" && 1 <= score <= 10
    ensures r == Err(TextBlank) <==> Text.Strip(text) == ""
    ensures r.Ok? ==> r.value == (Text.Strip(text), score)
  {
    var stripped := Text.Strip(text);
    if stripped == "" then Err(TextBlank)
    else match Catalogue.ValidateScore(score)
    case Err(e) => Err(Score(e))
    case Ok(_) => Ok((stripped, score))
  }

  /** POST of a review to a title: the field checks, then
      ReviewSerializer.validate, then the view's `get_object_or_404` for the
      title, then the insert. The database picks the new key `id`. */
  function PostReview(st: Catalogue.Store, id: Catalogue.Id, author: Catalogue.Id,
                      title: Catalogue.Id, text: string, score: int): (r: Result<Catalogue.Store, ReviewError>)
    requires id !in st.reviews && author in st.users
    ensures r.Ok? <==>
      Text.Strip(text) != "" && 1 <= score <= 10 && !HasReviewed(st.reviews, author, title) && title in st.titles
    ensures r == Err(TextBlank) <==> Text.Strip(text) == ""
    ensures r == Err(AlreadyReviewed) <==>
      Text.Strip(text) != "" && 1 <= score <= 10 && HasReviewed(st.reviews, author, title)
    ensures r.Ok? ==>
      r.value == st.(reviews := st.reviews[id := Catalogue.Review(author, title, Text.Strip(text), score)])
    ensures r.Ok? && Catalogue.Valid(st) ==> Catalogue.Valid(r.value)
  {
    match ValidateReviewFields(text, score)
    case Err(e) => Err(e)
    case Ok((body, _)) =>
      match ValidateReview("POST", st.reviews, title, author, ())
      case Err(e) => Err(e)
      case Ok(_) =>
        if title !in st.titles then Err(TitleNotFound)
        else
          var review := Catalogue.Review(author, title, body, score);
          Catalogue.AddReviewKeepsValid(st, id, review);
          Ok(st.(reviews := st.reviews[id := review]))
  }

  /** From a valid store, any run of accepted review posts keeps at most one
      review per author and title. */
  lemma {:induction false} PostsKeepOneReviewPerPair(st: Catalogue.Store, posts: seq<(Catalogue.Id, Catalogue.Id, Catalogue.Id, string, int)>)
    requires Catalogue.Valid(st)
    ensures Catalogue.OneReviewPerPair(ApplyPosts(st, posts).reviews)
    decreases |posts|
  {
    if posts != [] {
      var (id, author, title, text, score) := posts[0];
      if id !in st.reviews && author in st.users {
        var r := PostReview(st, id, author, title, text, score);
        if r.Ok? {
          PostsKeepOneReviewPerPair(r.value, posts[1..]);
        } else {
          PostsKeepOneReviewPerPair(st, posts[1..]);
        }
      } else {
        PostsKeepOneReviewPerPair(st, posts[1..]);
      }
    }
  }

  /** Posts applied in order; a refused post leaves the store unchanged. */
  function ApplyPosts(st: Catalogue.Store, posts: seq<(Catalogue.Id, Catalogue.Id, Catalogue.Id, string, int)>): Catalogue.Store
    decreases |posts|
  {
    if posts == [] then st
    else
      var (id, author, title, text, score) := posts[0];
      if id !in st.reviews && author in st.users then
        match PostReview(st, id, author, title, text, score)
        case Ok(next) => ApplyPosts(next, posts[1..])
        case Err(_) => ApplyPosts(st, posts[1..])
      else ApplyPosts(st, posts[1..])
  }

  // ----------------------------------------------------------------- users

  datatype UserDataError =
    | UsernameBlank
    | UsernameTooLong
    | UsernameFormat(formatError: UsernameError)
    | EmailBlank
    | EmailTooLong
    | Name(nameError: NameError)
    | NameIsNone(fieldName: string)
    | Identity(identityError: IdentityError)

  /** validate_first_name / validate_last_name AS WRITTEN: the fields allow
      null and default to None, and `len(None)` raises a TypeError. */
  function ValidateOptionalNameAsWritten(value: Option<string>, fieldName: string): (r: Result<Option<string>, UserDataError>)
    ensures value.None? ==> r == Err(NameIsNone(fieldName))
    ensures value.Some? ==> (r.Ok? <==> |value.value| <= 150)
  {
    match value
    case None => Err(NameIsNone(fieldName))
    case Some(v) =>
      match ValidateNameLength(v, fieldName)
      case Ok(v') => Ok(Some(v'))
      case Err(e) => Err(Name(e))
  }

  /** An omitted first name, which the field turns into None, is refused
      by the code as written. */
  lemma OmittedNameRefused()
    ensures ValidateOptionalNameAsWritten(None, "first_name").Err?
  {
  }

  /** The names as intended: None passes, a string passes iff it has at
      most 150 characters; the value is returned unchanged. */
  function ValidateOptionalName(value: Option<string>, fieldName: string): (r: Result<Option<string>, UserDataError>)
    ensures r.Ok? <==> value.None? || |value.value| <= 150
    ensures r.Ok? ==> r.value == value
    ensures r.Err? ==> r.error == Name(TooLong(fieldName))
  {
    match value
    case None => Ok(None)
    case Some(v) =>
      match ValidateNameLength(v, fieldName)
      case Ok(v') => Ok(Some(v'))
      case Err(e) => Err(Name(e))
  }

  /** The intended check agrees with the written one on every present name
      and accepts the absent one. */
  lemma OptionalNameAgreesOnStrings(value: Option<string>, fieldName: string)
    ensures value.Some? ==> ValidateOptionalName(value, fieldName) == ValidateOptionalNameAsWritten(value, fieldName)
    ensures ValidateOptionalName(None, fieldName) == Ok(None)
  {
  }

  datatype UserData = UserData(username: string, email: string, firstName: Option<string>, lastName: Option<string>)

  /** UserSerializer validation: field checks in field order, then
      validate_user_exists. The second component is the instance the
      serializer will save into: the matching account, or none for a new
      one. */
  function ValidateUserData(w: WordClass, users: UserTable, data: UserData): (r: Result<(UserData, Option<User>), UserDataError>)
    ensures r.Ok? ==> r.value.0 == data
    ensures r.Ok? ==>
      && 0 < |data.username| <= 150 && ValidateUsernameFormat(w, data.username).Ok?
      && 0 < |data.email| <= 254
      && (data.firstName.Some? ==> |data.firstName.value| <= 150)
      && (data.lastName.Some? ==> |data.lastName.value| <= 150)
    ensures r.Ok? <==>
      && 0 < |data.username| <= 150 && ValidateUsernameFormat(w, data.username).Ok?
      && 0 < |data.email| <= 254
      && ValidateOptionalName(data.firstName, "first_name").Ok?
      && ValidateOptionalName(data.lastName, "last_name").Ok?
      && ValidateUserExists(users, data.username, data.email).Ok?
    ensures r.Ok? ==> ValidateUserExists(users, data.username, data.email) == Ok(r.value.1)
    ensures r.Ok? && r.value.1.Some? ==>
      r.value.1.value.username == data.username && r.value.1.value.email == data.email
  {
    if data.username == "" then Err(UsernameBlank)
    else if |data.username| > 150 then Err(UsernameTooLong)
    else match ValidateUsernameFormat(w, data.username)
    case Err(e) => Err(UsernameFormat(e))
    case Ok(_) =>
      if data.email == "" then Err(EmailBlank)
      else if |data.email| > 254 then Err(EmailTooLong)
      else match ValidateOptionalName(data.firstName, "first_name")
      case Err(e) => Err(e)
      case Ok(_) =>
        match ValidateOptionalName(data.lastName, "last_name")
        case Err(e) => Err(e)
        case Ok(_) =>
          match ValidateUserExists(users, data.username, data.email)
          case Err(e) => Err(Identity(e))
          case Ok(instance) => Ok((data, instance))
  }

  /** A name over 150 characters is refused whatever else the data holds. */
  lemma LongNamesRefused(w: WordClass, users: UserTable, data: UserData)
    requires (data.firstName.Some? && |data.firstName.value| > 150)
          || (data.lastName.Some? && |data.lastName.value| > 150)
    ensures ValidateUserData(w, users, data).Err?
  {
  }
}
