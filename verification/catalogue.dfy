/** The catalogue models of reviews/models.py (Category, Genre, Title,
    Review, Comment) as an in-memory store keyed by primary key, with the
    store's integrity constraints and the `on_delete` rules of its foreign
    keys. */
module Catalogue {
  import opened Results
  import Constants

  type Id = nat

  datatype Category = Category(name: string, slug: string)
  datatype Genre = Genre(name: string, slug: string)
  datatype Title = Title(
    name: string,
    year: int,
    description: Option<string>,
    genres: set<Id>,
    category: Option<Id>)
  datatype Review = Review(author: Id, title: Id, text: string, score: int)
  datatype Comment = Comment(author: Id, review: Id, text: string)

  /** The database: `users` holds the primary keys of the user table. */
  datatype Store = Store(
    users: set<Id>,
    categories: map<Id, Category>,
    genres: map<Id, Genre>,
    titles: map<Id, Title>,
    reviews: map<Id, Review>,
    comments: map<Id, Comment>)

  predicate ScoreInRange(score: int) {
    Constants.MinScore <= score <= Constants.MaxScore
  }

  ghost predicate TitlesReferenceExisting(st: Store) {
    forall t :: t in st.titles ==>
      && st.titles[t].genres <= st.genres.Keys
      && (st.titles[t].category.Some? ==> st.titles[t].category.value in st.categories)
  }

  ghost predicate ReviewsWellFormed(st: Store) {
    forall r :: r in st.reviews ==>
      && st.reviews[r].author in st.users
      && st.reviews[r].title in st.titles
      && ScoreInRange(st.reviews[r].score)
  }

  ghost predicate CommentsReferenceExisting(st: Store) {
    forall c :: c in st.comments ==>
      st.comments[c].author in st.users && st.comments[c].review in st.reviews
  }

  /** The `unique_review` constraint on (author, title). */
  ghost predicate OneReviewPerPair(reviews: map<Id, Review>) {
    forall a, b :: a in reviews && b in reviews && a != b ==>
      reviews[a].author != reviews[b].author || reviews[a].title != reviews[b].title
  }

  ghost predicate UniqueSlugs(st: Store) {
    && (forall a, b :: a in st.categories && b in st.categories && a != b ==>
          st.categories[a].slug != st.categories[b].slug)
    && (forall a, b :: a in st.genres && b in st.genres && a != b ==>
          st.genres[a].slug != st.genres[b].slug)
  }

  /** Every constraint the database enforces on the catalogue. */
  ghost predicate Valid(st: Store) {
    && TitlesReferenceExisting(st)
    && ReviewsWellFormed(st)
    && CommentsReferenceExisting(st)
    && OneReviewPerPair(st.reviews)
    && UniqueSlugs(st)
  }

  datatype ScoreError = BelowMinimum(limit: int) | AboveMaximum(limit: int)

  /** get_score_validators: MinValueValidator(1) then MaxValueValidator(10). */
  function ValidateScore(score: int): (r: Result<int, ScoreError>)
    ensures r.Ok? <==> 1 <= score <= 10
    ensures r.Ok? ==> r.value == score
    ensures r.Err? ==> (r.error.BelowMinimum? <==> score < 1)
  {
    if score < Constants.MinScore then Err(BelowMinimum(Constants.MinScore))
    else if score > Constants.MaxScore then Err(AboveMaximum(Constants.MaxScore))
    else Ok(score)
  }

  /** The models' `__str__`: `text[:MAX_STR_LENGTH]`. */
  function ShortStr(text: string): (r: string)
    ensures |r| <= Constants.MaxStrLength
    ensures |r| <= |text| && r == text[..|r|]
    ensures |text| <= Constants.MaxStrLength ==> r == text
    ensures |text| > Constants.MaxStrLength ==> |r| == Constants.MaxStrLength
  {
    if |text| <= Constants.MaxStrLength then text else text[..Constants.MaxStrLength]
  }

  /** Inserting a review keeps the store valid when its author and title
      exist, its score is in range and the pair has no review yet. */
  lemma AddReviewKeepsValid(st: Store, id: Id, review: Review)
    requires id !in st.reviews
    requires review.author in st.users && review.title in st.titles && ScoreInRange(review.score)
    requires forall k :: k in st.reviews ==> st.reviews[k].author != review.author || st.reviews[k].title != review.title
    ensures Valid(st) ==> Valid(st.(reviews := st.reviews[id := review]))
  {
  }

  /** Deleting a category: `on_delete=SET_NULL` on Title.category. */
  function DeleteCategory(st: Store, id: Id): (r: Store)
    ensures r.categories.Keys == st.categories.Keys - {id}
    ensures r.titles.Keys == st.titles.Keys
    ensures forall t :: t in r.titles ==> r.titles[t].category != Some(id)
    ensures forall t :: t in r.titles ==>
      r.titles[t].(category := st.titles[t].category) == st.titles[t]
      && (st.titles[t].category != Some(id) ==> r.titles[t] == st.titles[t])
    ensures r.users == st.users && r.genres == st.genres
    ensures r.reviews == st.reviews && r.comments == st.comments
    ensures Valid(st) ==> Valid(r)
  {
    var titles := map t | t in st.titles ::
      if st.titles[t].category == Some(id) then st.titles[t].(category := None) else st.titles[t];
    st.(categories := st.categories - {id}, titles := titles)
  }

  /** Deleting a genre removes it from every title's genre set (the rows of
      the many-to-many table go with it). */
  function DeleteGenre(st: Store, id: Id): (r: Store)
    ensures r.genres.Keys == st.genres.Keys - {id}
    ensures r.titles.Keys == st.titles.Keys
    ensures forall t :: t in r.titles ==>
      r.titles[t].genres == st.titles[t].genres - {id}
      && r.titles[t].(genres := st.titles[t].genres) == st.titles[t]
    ensures r.users == st.users && r.categories == st.categories
    ensures r.reviews == st.reviews && r.comments == st.comments
    ensures Valid(st) ==> Valid(r)
  {
    var titles := map t | t in st.titles :: st.titles[t].(genres := st.titles[t].genres - {id});
    st.(genres := st.genres - {id}, titles := titles)
  }

  /** The comments that survive when the reviews in `gone` are deleted. */
  function CommentsNotOn(comments: map<Id, Comment>, gone: set<Id>): (r: map<Id, Comment>)
    ensures forall c :: c in r <==> c in comments && comments[c].review !in gone
    ensures forall c :: c in r ==> r[c] == comments[c]
  {
    map c | c in comments && comments[c].review !in gone :: comments[c]
  }

  /** Deleting a review: `on_delete=CASCADE` on Comment.review. */
  function DeleteReview(st: Store, id: Id): (r: Store)
    ensures r.reviews.Keys == st.reviews.Keys - {id}
    ensures forall c :: c in r.comments <==> c in st.comments && st.comments[c].review != id
    ensures forall c :: c in r.comments ==> r.comments[c] == st.comments[c]
    ensures r.users == st.users && r.categories == st.categories
    ensures r.genres == st.genres && r.titles == st.titles
    ensures forall k :: k in r.reviews ==> r.reviews[k] == st.reviews[k]
    ensures Valid(st) ==> Valid(r)
  {
    st.(reviews := st.reviews - {id}, comments := CommentsNotOn(st.comments, {id}))
  }

  /** Deleting a title: `on_delete=CASCADE` on Review.title, and from there
      on Comment.review. */
  function DeleteTitle(st: Store, id: Id): (r: Store)
    ensures r.titles.Keys == st.titles.Keys - {id}
    ensures forall k :: k in r.reviews <==> k in st.reviews && st.reviews[k].title != id
    ensures forall c :: c in r.comments ==> c in st.comments && r.comments[c] == st.comments[c]
    ensures forall c :: (c in st.comments && st.comments[c].review in st.reviews
      ==> (c in r.comments <==> st.reviews[st.comments[c].review].title != id))
    ensures forall t :: t in r.titles ==> r.titles[t] == st.titles[t]
    ensures forall k :: k in r.reviews ==> r.reviews[k] == st.reviews[k]
    ensures r.users == st.users && r.categories == st.categories && r.genres == st.genres
    ensures Valid(st) ==> Valid(r)
  {
    var gone := set k | k in st.reviews && st.reviews[k].title == id;
    var reviews := map k | k in st.reviews && st.reviews[k].title != id :: st.reviews[k];
    st.(titles := st.titles - {id}, reviews := reviews, comments := CommentsNotOn(st.comments, gone))
  }

  /** Deleting a user: `on_delete=CASCADE` on Review.author and
      Comment.author, and from the deleted reviews on Comment.review. */
  function DeleteUser(st: Store, id: Id): (r: Store)
    ensures r.users == st.users - {id}
    ensures forall k :: k in r.reviews <==> k in st.reviews && st.reviews[k].author != id
    ensures forall c :: c in r.comments ==> c in st.comments && r.comments[c] == st.comments[c] && st.comments[c].author != id
    ensures forall c :: (c in st.comments && st.comments[c].review in st.reviews ==>
      (c in r.comments <==> st.comments[c].author != id && st.reviews[st.comments[c].review].author != id))
    ensures forall k :: k in r.reviews ==> r.reviews[k] == st.reviews[k]
    ensures r.categories == st.categories && r.genres == st.genres && r.titles == st.titles
    ensures Valid(st) ==> Valid(r)
  {
    var gone := set k | k in st.reviews && st.reviews[k].author == id;
    var onKept := CommentsNotOn(st.comments, gone);
    st.(users := st.users - {id}, reviews := ReviewsNotBy(st.reviews, id), comments := CommentsNotBy(onKept, id))
  }

  function ReviewsNotBy(reviews: map<Id, Review>, author: Id): (r: map<Id, Review>)
    ensures forall k :: k in r <==> k in reviews && reviews[k].author != author
    ensures forall k :: k in r ==> r[k] == reviews[k]
  {
    map k | k in reviews && reviews[k].author != author :: reviews[k]
  }

  function CommentsNotBy(comments: map<Id, Comment>, author: Id): (r: map<Id, Comment>)
    ensures forall c :: c in r <==> c in comments && comments[c].author != author
    ensures forall c :: c in r ==> r[c] == comments[c]
  {
    map c | c in comments && comments[c].author != author :: comments[c]
  }
}
