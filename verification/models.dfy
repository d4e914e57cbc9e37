/** The domain store of the review API: one map per table from primary key to row, the
    field validators, the uniqueness constraints, and the `on_delete` rules as store
    operations. */
module Models {
  import opened Common
  import Ids

  type CategoryId = nat
  type GenreId = nat
  type TitleId = nat
  type LinkId = nat
  type UserId = nat
  type ReviewId = nat
  type CommentId = nat

  /** Category and Genre have the same shape: a display name and a unique URL slug. */
  datatype SlugRecord = SlugRecord(name: string, slug: string)
  type Category = SlugRecord
  type Genre = SlugRecord

  /** A work. `category` is nullable: deleting the category clears it. */
  datatype Title = Title(name: string, year: int, description: string, category: Option<CategoryId>)

  /** A row of the explicit many-to-many table between titles and genres. */
  datatype TitleGenre = TitleGenre(title: TitleId, genre: GenreId)

  const ADMIN: string := "admin"
  const USER: string := "user"
  const MODERATOR: string := "moderator"

  /** An account. `role` is stored as text restricted to the three role choices. */
  datatype User = User(username: string, email: string, firstName: string, lastName: string,
                       bio: string, role: string)

  /** The confirmation code row; the store keys it by its one-to-one user. */
  datatype UserAuth = UserAuth(confirmationCode: string)

  datatype Review = Review(title: TitleId, author: UserId, text: string, score: int)

  datatype Comment = Comment(review: ReviewId, author: UserId, text: string)

  datatype Store = Store(
    categories: map<CategoryId, Category>,
    genres: map<GenreId, Genre>,
    titles: map<TitleId, Title>,
    titleGenres: map<LinkId, TitleGenre>,
    users: map<UserId, User>,
    auths: map<UserId, UserAuth>,
    reviews: map<ReviewId, Review>,
    comments: map<CommentId, Comment>)

  const EmptyStore: Store := Store(map[], map[], map[], map[], map[], map[], map[], map[])

  const SLUG_MAX_LENGTH: nat := 50
  const NAME_MAX_LENGTH: nat := 256
  const DESCRIPTION_MAX_LENGTH: nat := 256
  const USERNAME_MAX_LENGTH: nat := 150
  const PERSON_NAME_MAX_LENGTH: nat := 150
  const EMAIL_MAX_LENGTH: nat := 254
  const CODE_MAX_LENGTH: nat := 6
  const MIN_SCORE: int := 1
  const MAX_SCORE: int := 10

  // ---------------------------------------------------------------- field validators

  /** A character of the class `[-a-zA-Z0-9_]`. */
  predicate SlugChar(c: char) {
    ('a' <= c <= 'z') || ('A' <= c <= 'Z') || ('0' <= c <= '9') || c == '-' || c == '_'
  }

  /** The slug field: `^[-a-zA-Z0-9_]+$` (one or more characters) and at most 50 of them. */
  predicate ValidSlug(s: string) {
    0 < |s| <= SLUG_MAX_LENGTH && forall i :: 0 <= i < |s| ==> SlugChar(s[i])
  }

  /** The year validators; the upper bound is the calendar year read when the models load. */
  predicate ValidYear(year: int, currentYear: int) {
    0 <= year <= currentYear
  }

  predicate ValidScore(score: int) {
    MIN_SCORE <= score <= MAX_SCORE
  }

  predicate ValidRole(role: string) {
    role == ADMIN || role == USER || role == MODERATOR
  }

  predicate IsAdmin(u: User) {
    u.role == ADMIN
  }

  predicate IsModerator(u: User) {
    u.role == MODERATOR
  }

  /** No account is both an administrator and a moderator. */
  lemma RolesExclusive(u: User)
    ensures !(IsAdmin(u) && IsModerator(u))
  {
  }

  /** Among the role choices, the plain "user" role is exactly the one with neither flag. */
  lemma PlainUserHasNoFlags(u: User)
    requires ValidRole(u.role)
    ensures u.role == USER <==> !IsAdmin(u) && !IsModerator(u)
  {
  }

  /** The record `create_user(username, email)` makes: blank names and bio, default role. */
  function NewUser(username: string, email: string): (u: User)
    ensures u.username == username && u.email == email
    ensures u.firstName == "" && u.lastName == "" && u.bio == ""
    ensures ValidRole(u.role) && !IsAdmin(u) && !IsModerator(u)
  {
    User(username, email, "", "", "", USER)
  }

  // ---------------------------------------------------------------- uniqueness and lookups

  predicate UniqueSlugs(m: map<nat, SlugRecord>) {
    forall a, b :: a in m && b in m && m[a].slug == m[b].slug ==> a == b
  }

  predicate UniqueUsernames(users: map<UserId, User>) {
    forall a, b :: a in users && b in users && users[a].username == users[b].username ==> a == b
  }

  predicate UniqueEmails(users: map<UserId, User>) {
    forall a, b :: a in users && b in users && users[a].email == users[b].email ==> a == b
  }

  /** The database constraint `unique_review` on (title, author). */
  predicate OneReviewPerAuthor(reviews: map<ReviewId, Review>) {
    forall a, b ::
      (a in reviews && b in reviews &&
       reviews[a].title == reviews[b].title && reviews[a].author == reviews[b].author) ==> a == b
  }

  predicate SlugTaken(m: map<nat, SlugRecord>, slug: string) {
    exists k :: k in m && m[k].slug == slug
  }

  predicate UsernameTaken(users: map<UserId, User>, username: string) {
    exists u :: u in users && users[u].username == username
  }

  predicate EmailTaken(users: map<UserId, User>, email: string) {
    exists u :: u in users && users[u].email == email
  }

  predicate HasReview(reviews: map<ReviewId, Review>, title: TitleId, author: UserId) {
    exists r :: r in reviews && reviews[r].title == title && reviews[r].author == author
  }

  /** `objects.get(slug=...)` on a slug-unique table. */
  function FindBySlug(m: map<nat, SlugRecord>, slug: string): (r: Option<nat>)
    requires UniqueSlugs(m)
    ensures forall k :: k in m ==> (m[k].slug == slug <==> r == Some(k))
    ensures r.Some? ==> r.value in m
  {
    if SlugTaken(m, slug) then
      var k :| k in m && m[k].slug == slug;
      Some(k)
    else
      None
  }

  /** `User.objects.get(username=...)`. */
  function FindByUsername(users: map<UserId, User>, username: string): (r: Option<UserId>)
    requires UniqueUsernames(users)
    ensures forall u :: u in users ==> (users[u].username == username <==> r == Some(u))
    ensures r.Some? ==> r.value in users
  {
    if UsernameTaken(users, username) then
      var u :| u in users && users[u].username == username;
      Some(u)
    else
      None
  }

  // ---------------------------------------------------------------- store invariant

  predicate SlugTablesValid(s: Store) {
    && (forall c :: c in s.categories ==> ValidSlug(s.categories[c].slug))
    && (forall g :: g in s.genres ==> ValidSlug(s.genres[g].slug))
    && UniqueSlugs(s.categories)
    && UniqueSlugs(s.genres)
  }

  predicate AccountsValid(s: Store) {
    && UniqueUsernames(s.users)
    && UniqueEmails(s.users)
    && (forall u :: u in s.users ==> ValidRole(s.users[u].role))
    && (forall u :: u in s.auths ==> u in s.users)
  }

  /** Every foreign key names an existing row (a nullable one may be empty). */
  predicate ReferencesResolve(s: Store) {
    && (forall t :: t in s.titles && s.titles[t].category.Some? ==> s.titles[t].category.value in s.categories)
    && (forall l :: l in s.titleGenres ==> s.titleGenres[l].title in s.titles && s.titleGenres[l].genre in s.genres)
    && (forall r :: r in s.reviews ==> s.reviews[r].title in s.titles && s.reviews[r].author in s.users)
    && (forall c :: c in s.comments ==> s.comments[c].review in s.reviews && s.comments[c].author in s.users)
  }

  predicate ReviewsValid(s: Store) {
    && (forall r :: r in s.reviews ==> ValidScore(s.reviews[r].score))
    && OneReviewPerAuthor(s.reviews)
  }

  /** What the database and the validators guarantee of every stored state. */
  predicate ValidStore(s: Store) {
    SlugTablesValid(s) && AccountsValid(s) && ReferencesResolve(s) && ReviewsValid(s)
  }

  lemma EmptyStoreValid()
    ensures ValidStore(EmptyStore)
  {
  }

  // ---------------------------------------------------------------- invariant frames

  /** Every row of `a` is the same row of `b`. */
  predicate SubMap<K, V(==)>(a: map<K, V>, b: map<K, V>) {
    forall k :: k in a ==> k in b && a[k] == b[k]
  }

  lemma SlugTablesFrame(s: Store, r: Store)
    requires SlugTablesValid(s) && SubMap(r.categories, s.categories) && SubMap(r.genres, s.genres)
    ensures SlugTablesValid(r)
  {
  }

  lemma AccountsFrame(s: Store, r: Store)
    requires AccountsValid(s) && SubMap(r.users, s.users) && r.auths.Keys <= r.users.Keys
    ensures AccountsValid(r)
  {
  }

  lemma ReviewsFrame(s: Store, r: Store)
    requires ReviewsValid(s) && SubMap(r.reviews, s.reviews)
    ensures ReviewsValid(r)
  {
  }

  /** References stay resolved when only referenced tables gain keys. */
  lemma ReferencesGrow(s: Store, r: Store)
    requires ReferencesResolve(s)
    requires r.titles == s.titles && r.titleGenres == s.titleGenres && r.reviews == s.reviews && r.comments == s.comments
    requires s.categories.Keys <= r.categories.Keys && s.genres.Keys <= r.genres.Keys && s.users.Keys <= r.users.Keys
    ensures ReferencesResolve(r)
  {
  }

  /** Deleting rows keeps the store valid as long as no surviving row points at a
      deleted one. */
  lemma ShrinkPreservesValid(s: Store, r: Store)
    requires ValidStore(s) && ReferencesResolve(r)
    requires SubMap(r.categories, s.categories) && SubMap(r.genres, s.genres)
    requires SubMap(r.users, s.users) && r.auths.Keys <= r.users.Keys && SubMap(r.reviews, s.reviews)
    ensures ValidStore(r)
  {
    SlugTablesFrame(s, r);
    AccountsFrame(s, r);
    ReviewsFrame(s, r);
  }

  // ---------------------------------------------------------------- inserts

  /** `Review.objects.create`: the `unique_review` constraint rejects a second review of
      the same title by the same author. */
  function InsertReview(s: Store, review: Review): (r: Result<(Store, ReviewId)>)
    ensures r.Err? <==> HasReview(s.reviews, review.title, review.author)
    ensures r.Err? ==> r.error == Integrity
    ensures r.Ok? ==> r.value.1 !in s.reviews
    ensures r.Ok? ==> r.value.0 == s.(reviews := s.reviews[r.value.1 := review])
  {
    if HasReview(s.reviews, review.title, review.author) then Err(Integrity)
    else
      var id := Ids.FreshId(s.reviews.Keys);
      Ok((s.(reviews := s.reviews[id := review]), id))
  }

  lemma InsertReviewReferences(s: Store, review: Review)
    requires ReferencesResolve(s) && review.title in s.titles && review.author in s.users
    ensures InsertReview(s, review).Ok? ==> ReferencesResolve(InsertReview(s, review).value.0)
  {
  }

  lemma InsertReviewScores(s: Store, review: Review)
    requires ReviewsValid(s) && ValidScore(review.score)
    ensures InsertReview(s, review).Ok? ==> ReviewsValid(InsertReview(s, review).value.0)
  {
  }

  lemma InsertReviewPreservesValid(s: Store, review: Review)
    requires ValidStore(s)
    requires review.title in s.titles && review.author in s.users && ValidScore(review.score)
    ensures InsertReview(s, review).Ok? ==> ValidStore(InsertReview(s, review).value.0)
  {
    if InsertReview(s, review).Ok? {
      var r := InsertReview(s, review).value.0;
      SlugTablesFrame(s, r);
      AccountsFrame(s, r);
      InsertReviewReferences(s, review);
      InsertReviewScores(s, review);
    }
  }


  /** After one review of a (title, author) pair is stored, a second insert of the pair fails. */
  lemma SecondReviewRejected(s: Store, first: Review, second: Review)
    requires InsertReview(s, first).Ok?
    requires second.title == first.title && second.author == first.author
    ensures InsertReview(InsertReview(s, first).value.0, second) == Err(Integrity)
  {
    var (s1, id) := InsertReview(s, first).value;
    assert s1.reviews[id] == first;
  }

  function InsertComment(s: Store, comment: Comment): (r: (Store, CommentId))
    ensures r.1 !in s.comments
    ensures r.0 == s.(comments := s.comments[r.1 := comment])
  {
    var id := Ids.FreshId(s.comments.Keys);
    (s.(comments := s.comments[id := comment]), id)
  }

  /** Some link row joins title `t` to genre `g`. */
  predicate Linked(tg: map<LinkId, TitleGenre>, t: TitleId, g: GenreId) {
    exists l :: l in tg && tg[l] == TitleGenre(t, g)
  }

  /** One genre added to a title's genre set: a new link row unless one exists. */
  function AddLink(tg: map<LinkId, TitleGenre>, t: TitleId, g: GenreId): (r: map<LinkId, TitleGenre>)
    ensures forall l :: l in tg ==> l in r && r[l] == tg[l]
    ensures forall l :: l in r && l !in tg ==> r[l] == TitleGenre(t, g)
    ensures forall h :: Linked(r, t, h) <==> Linked(tg, t, h) || h == g
    ensures forall l, m :: l in r && m in r && l !in tg && r[l] == r[m] ==> l == m
  {
    if Linked(tg, t, g) then tg
    else
      var id := Ids.FreshId(tg.Keys);
      var r := tg[id := TitleGenre(t, g)];
      assert id in r && r[id] == TitleGenre(t, g);
      r
  }

  /** The link rows `title.genre.set(gids)` adds: one per genre not yet linked, so a
      genre named twice is linked once. */
  function AddLinks(tg: map<LinkId, TitleGenre>, t: TitleId, gids: seq<GenreId>): (r: map<LinkId, TitleGenre>)
    ensures forall l :: l in tg ==> l in r && r[l] == tg[l]
    ensures forall l :: l in r && l !in tg ==> r[l].title == t && r[l].genre in gids
    ensures forall g :: Linked(r, t, g) <==> Linked(tg, t, g) || g in gids
    ensures forall l, m :: l in r && m in r && l !in tg && r[l] == r[m] ==> l == m
    decreases |gids|
  {
    if gids == [] then tg
    else
      var init := gids[..|gids| - 1];
      var g := gids[|gids| - 1];
      assert gids == init + [g];
      AddLink(AddLinks(tg, t, init), t, g)
  }

  /** `Title.objects.create` followed by `title.genre.set(gids)`. */
  function InsertTitle(s: Store, title: Title, gids: seq<GenreId>): (r: (Store, TitleId))
    ensures r.1 !in s.titles
    ensures r.0.titles == s.titles[r.1 := title]
    ensures r.0.titleGenres == AddLinks(s.titleGenres, r.1, gids)
    ensures r.0 == s.(titles := r.0.titles, titleGenres := r.0.titleGenres)
  {
    var id := Ids.FreshId(s.titles.Keys);
    (s.(titles := s.titles[id := title], titleGenres := AddLinks(s.titleGenres, id, gids)), id)
  }

  /** A new title whose references resolve keeps the store valid, and its genres are
      exactly the ones given. */
  lemma InsertTitleReferences(s: Store, title: Title, gids: seq<GenreId>)
    requires ReferencesResolve(s)
    requires title.category.Some? ==> title.category.value in s.categories
    requires forall i :: 0 <= i < |gids| ==> gids[i] in s.genres
    ensures ReferencesResolve(InsertTitle(s, title, gids).0)
  {
    var (r, id) := InsertTitle(s, title, gids);
    assert forall l :: l in r.titleGenres ==> r.titleGenres[l].title in r.titles && r.titleGenres[l].genre in r.genres;
  }

  lemma InsertTitlePreservesValid(s: Store, title: Title, gids: seq<GenreId>)
    requires ValidStore(s)
    requires title.category.Some? ==> title.category.value in s.categories
    requires forall i :: 0 <= i < |gids| ==> gids[i] in s.genres
    ensures ValidStore(InsertTitle(s, title, gids).0)
    ensures forall g :: Linked(InsertTitle(s, title, gids).0.titleGenres, InsertTitle(s, title, gids).1, g) <==> g in gids
  {
    var (r, id) := InsertTitle(s, title, gids);
    assert forall g :: !Linked(s.titleGenres, id, g);
    SlugTablesFrame(s, r);
    AccountsFrame(s, r);
    ReviewsFrame(s, r);
    InsertTitleReferences(s, title, gids);
  }


  function InsertSlugRecord(m: map<nat, SlugRecord>, rec: SlugRecord): (r: (map<nat, SlugRecord>, nat))
    ensures r.1 !in m && r.0 == m[r.1 := rec]
  {
    var id := Ids.FreshId(m.Keys);
    (m[id := rec], id)
  }

  /** `User.objects.create_user(username, email)`: the unique username and email columns
      reject a second account with either. */
  function CreateUserRecord(s: Store, username: string, email: string): (r: Result<(Store, UserId)>)
    ensures r.Err? <==> UsernameTaken(s.users, username) || EmailTaken(s.users, email)
    ensures r.Err? ==> r.error == Integrity
    ensures r.Ok? ==> r.value.1 !in s.users
    ensures r.Ok? ==> r.value.0 == s.(users := s.users[r.value.1 := NewUser(username, email)])
  {
    if UsernameTaken(s.users, username) || EmailTaken(s.users, email) then Err(Integrity)
    else
      var id := Ids.FreshId(s.users.Keys);
      Ok((s.(users := s.users[id := NewUser(username, email)]), id))
  }

  lemma CreateUserRecordAccounts(s: Store, username: string, email: string)
    requires AccountsValid(s)
    ensures CreateUserRecord(s, username, email).Ok? ==> AccountsValid(CreateUserRecord(s, username, email).value.0)
  {
  }

  lemma CreateUserRecordPreservesValid(s: Store, username: string, email: string)
    requires ValidStore(s)
    ensures CreateUserRecord(s, username, email).Ok? ==> ValidStore(CreateUserRecord(s, username, email).value.0)
  {
    if CreateUserRecord(s, username, email).Ok? {
      var r := CreateUserRecord(s, username, email).value.0;
      SlugTablesFrame(s, r);
      CreateUserRecordAccounts(s, username, email);
      ReferencesGrow(s, r);
      ReviewsFrame(s, r);
    }
  }


  // ---------------------------------------------------------------- on_delete rules

  function ClearCategory(t: Title, id: CategoryId): Title {
    if t.category == Some(id) then t.(category := None) else t
  }

  /** Deleting a category (SET_NULL): every title survives; exactly the titles that
      referenced it lose their category. */
  function DeleteCategory(s: Store, id: CategoryId): (r: Store)
    ensures r.categories == s.categories - {id}
    ensures r.titles.Keys == s.titles.Keys
    ensures forall t :: t in s.titles ==>
      r.titles[t].category == (if s.titles[t].category == Some(id) then None else s.titles[t].category)
    ensures forall t :: t in s.titles ==> r.titles[t].(category := s.titles[t].category) == s.titles[t]
    ensures r.(categories := s.categories, titles := s.titles) == s
  {
    s.(categories := s.categories - {id},
       titles := map t | t in s.titles :: ClearCategory(s.titles[t], id))
  }

  lemma DeleteCategoryReferences(s: Store, id: CategoryId)
    requires ReferencesResolve(s)
    ensures ReferencesResolve(DeleteCategory(s, id))
  {
  }

  lemma DeleteCategoryPreservesValid(s: Store, id: CategoryId)
    requires ValidStore(s)
    ensures ValidStore(DeleteCategory(s, id))
    ensures forall t :: t in DeleteCategory(s, id).titles ==> DeleteCategory(s, id).titles[t].category != Some(id)
  {
    var r := DeleteCategory(s, id);
    SlugTablesFrame(s, r);
    AccountsFrame(s, r);
    ReviewsFrame(s, r);
    DeleteCategoryReferences(s, id);
  }


  /** Deleting a genre (CASCADE on the link table): only its link rows go. */
  function DeleteGenre(s: Store, id: GenreId): (r: Store)
    ensures r.genres == s.genres - {id}
    ensures forall l :: l in r.titleGenres <==> l in s.titleGenres && s.titleGenres[l].genre != id
    ensures forall l :: l in r.titleGenres ==> r.titleGenres[l] == s.titleGenres[l]
    ensures r.(genres := s.genres, titleGenres := s.titleGenres) == s
  {
    s.(genres := s.genres - {id},
       titleGenres := map l | l in s.titleGenres && s.titleGenres[l].genre != id :: s.titleGenres[l])
  }

  lemma DeleteGenreReferences(s: Store, id: GenreId)
    requires ReferencesResolve(s)
    ensures ReferencesResolve(DeleteGenre(s, id))
  {
  }

  lemma DeleteGenrePreservesValid(s: Store, id: GenreId)
    requires ValidStore(s)
    ensures ValidStore(DeleteGenre(s, id))
  {
    var r := DeleteGenre(s, id);
    SlugTablesFrame(s, r);
    AccountsFrame(s, r);
    ReviewsFrame(s, r);
    DeleteGenreReferences(s, id);
  }


  /** Deleting a review (CASCADE from comments): exactly its comments go with it. */
  function DeleteReview(s: Store, id: ReviewId): (r: Store)
    ensures r.reviews == s.reviews - {id}
    ensures forall c :: c in r.comments <==> c in s.comments && s.comments[c].review != id
    ensures forall c :: c in r.comments ==> r.comments[c] == s.comments[c]
    ensures r.(reviews := s.reviews, comments := s.comments) == s
  {
    s.(reviews := s.reviews - {id},
       comments := map c | c in s.comments && s.comments[c].review != id :: s.comments[c])
  }

  lemma DeleteReviewReferences(s: Store, id: ReviewId)
    requires ReferencesResolve(s)
    ensures ReferencesResolve(DeleteReview(s, id))
  {
    var r := DeleteReview(s, id);
    assert forall c :: c in r.comments ==> r.comments[c].review in r.reviews && r.comments[c].author in r.users;
  }

  lemma DeleteReviewPreservesValid(s: Store, id: ReviewId)
    requires ValidStore(s)
    ensures ValidStore(DeleteReview(s, id))
  {
    DeleteReviewReferences(s, id);
    ShrinkPreservesValid(s, DeleteReview(s, id));
  }



  /** Comments that survive when the reviews outside `kept` are deleted. */
  function CommentsOnKept(comments: map<CommentId, Comment>, kept: map<ReviewId, Review>): map<CommentId, Comment> {
    map c | c in comments && comments[c].review in kept :: comments[c]
  }

  /** Deleting a title (CASCADE): its link rows, its reviews and their comments go with it. */
  function DeleteTitle(s: Store, id: TitleId): (r: Store)
    ensures r.titles == s.titles - {id}
    ensures forall l :: l in r.titleGenres <==> l in s.titleGenres && s.titleGenres[l].title != id
    ensures forall v :: v in r.reviews <==> v in s.reviews && s.reviews[v].title != id
    ensures forall c :: c in r.comments <==> c in s.comments && s.comments[c].review in r.reviews
    ensures forall l :: l in r.titleGenres ==> r.titleGenres[l] == s.titleGenres[l]
    ensures forall v :: v in r.reviews ==> r.reviews[v] == s.reviews[v]
    ensures forall c :: c in r.comments ==> r.comments[c] == s.comments[c]
    ensures r.(titles := s.titles, titleGenres := s.titleGenres, reviews := s.reviews, comments := s.comments) == s
  {
    var reviews := map v | v in s.reviews && s.reviews[v].title != id :: s.reviews[v];
    s.(titles := s.titles - {id},
       titleGenres := map l | l in s.titleGenres && s.titleGenres[l].title != id :: s.titleGenres[l],
       reviews := reviews,
       comments := CommentsOnKept(s.comments, reviews))
  }

  lemma DeleteTitleReferences(s: Store, id: TitleId)
    requires ReferencesResolve(s)
    ensures ReferencesResolve(DeleteTitle(s, id))
  {
    var r := DeleteTitle(s, id);
    assert forall l :: l in r.titleGenres ==> r.titleGenres[l].title in r.titles && r.titleGenres[l].genre in r.genres;
    assert forall v :: v in r.reviews ==> r.reviews[v].title in r.titles && r.reviews[v].author in r.users;
    assert forall c :: c in r.comments ==> r.comments[c].review in r.reviews && r.comments[c].author in r.users;
  }

  lemma DeleteTitlePreservesValid(s: Store, id: TitleId)
    requires ValidStore(s)
    ensures ValidStore(DeleteTitle(s, id))
  {
    DeleteTitleReferences(s, id);
    ShrinkPreservesValid(s, DeleteTitle(s, id));
  }



  /** Deleting a user (CASCADE): the confirmation code row, the user's reviews with their
      comments, and the user's own comments go with it. */
  function DeleteUser(s: Store, id: UserId): (r: Store)
    ensures r.users == s.users - {id} && r.auths == s.auths - {id}
    ensures forall v :: v in r.reviews <==> v in s.reviews && s.reviews[v].author != id
    ensures forall c :: c in r.comments <==>
      c in s.comments && s.comments[c].author != id && s.comments[c].review in r.reviews
    ensures forall v :: v in r.reviews ==> r.reviews[v] == s.reviews[v]
    ensures forall c :: c in r.comments ==> r.comments[c] == s.comments[c]
    ensures r.(users := s.users, auths := s.auths, reviews := s.reviews, comments := s.comments) == s
  {
    var reviews := map v | v in s.reviews && s.reviews[v].author != id :: s.reviews[v];
    var comments := map c | c in s.comments && s.comments[c].author != id :: s.comments[c];
    s.(users := s.users - {id},
       auths := s.auths - {id},
       reviews := reviews,
       comments := CommentsOnKept(comments, reviews))
  }

  lemma DeleteUserReferences(s: Store, id: UserId)
    requires ReferencesResolve(s)
    ensures ReferencesResolve(DeleteUser(s, id))
  {
    var r := DeleteUser(s, id);
    assert forall v :: v in r.reviews ==> r.reviews[v].title in r.titles && r.reviews[v].author in r.users;
    assert forall c :: c in r.comments ==> r.comments[c].review in r.reviews && r.comments[c].author in r.users;
  }

  lemma DeleteUserPreservesValid(s: Store, id: UserId)
    requires ValidStore(s)
    ensures ValidStore(DeleteUser(s, id))
  {
    DeleteUserReferences(s, id);
    ShrinkPreservesValid(s, DeleteUser(s, id));
  }

  // ---------------------------------------------------------------- row updates

  /** Rewriting a review's text and score keeps the store valid. */
  lemma ReplaceReviewPreservesValid(s: Store, v: ReviewId, review: Review)
    requires ValidStore(s) && v in s.reviews
    requires review.title == s.reviews[v].title && review.author == s.reviews[v].author && ValidScore(review.score)
    ensures ValidStore(s.(reviews := s.reviews[v := review]))
  {
    var r := s.(reviews := s.reviews[v := review]);
    SlugTablesFrame(s, r);
    AccountsFrame(s, r);
    ReplaceReviewReferences(s, v, review);
    ReplaceReviewScores(s, v, review);
  }

  lemma ReplaceReviewReferences(s: Store, v: ReviewId, review: Review)
    requires ReferencesResolve(s) && v in s.reviews
    requires review.title == s.reviews[v].title && review.author == s.reviews[v].author
    ensures ReferencesResolve(s.(reviews := s.reviews[v := review]))
  {
  }

  lemma ReplaceReviewScores(s: Store, v: ReviewId, review: Review)
    requires ReviewsValid(s) && v in s.reviews
    requires review.title == s.reviews[v].title && review.author == s.reviews[v].author && ValidScore(review.score)
    ensures ReviewsValid(s.(reviews := s.reviews[v := review]))
  {
    var m := s.reviews[v := review];
    forall a, b | a in m && b in m && m[a].title == m[b].title && m[a].author == m[b].author
      ensures a == b
    {
      assert s.reviews[a].title == m[a].title && s.reviews[a].author == m[a].author;
      assert s.reviews[b].title == m[b].title && s.reviews[b].author == m[b].author;
    }
  }

  /** Rewriting an account keeps the store valid when its new username and e-mail are
      not another account's. */
  lemma ReplaceUserPreservesValid(s: Store, u: UserId, user: User)
    requires ValidStore(s) && u in s.users
    requires forall w :: w in s.users && w != u ==> s.users[w].username != user.username && s.users[w].email != user.email
    requires ValidRole(user.role)
    ensures ValidStore(s.(users := s.users[u := user]))
  {
    var r := s.(users := s.users[u := user]);
    SlugTablesFrame(s, r);
    ReplaceUserAccounts(s, u, user);
    ReferencesGrow(s, r);
    ReviewsFrame(s, r);
  }

  lemma ReplaceUserAccounts(s: Store, u: UserId, user: User)
    requires AccountsValid(s) && u in s.users
    requires forall w :: w in s.users && w != u ==> s.users[w].username != user.username && s.users[w].email != user.email
    requires ValidRole(user.role)
    ensures AccountsValid(s.(users := s.users[u := user]))
  {
  }

  /** A comment on an existing review by an existing account keeps the store valid. */
  lemma InsertCommentPreservesValid(s: Store, comment: Comment)
    requires ValidStore(s) && comment.review in s.reviews && comment.author in s.users
    ensures ValidStore(InsertComment(s, comment).0)
  {
    var r := InsertComment(s, comment).0;
    SlugTablesFrame(s, r);
    AccountsFrame(s, r);
    ReviewsFrame(s, r);
    InsertCommentReferences(s, comment);
  }

  lemma InsertCommentReferences(s: Store, comment: Comment)
    requires ReferencesResolve(s) && comment.review in s.reviews && comment.author in s.users
    ensures ReferencesResolve(InsertComment(s, comment).0)
  {
  }

  /** A confirmation row for an existing account keeps the store valid. */
  lemma InsertAuthPreservesValid(s: Store, u: UserId, auth: UserAuth)
    requires ValidStore(s) && u in s.users
    ensures ValidStore(s.(auths := s.auths[u := auth]))
  {
    var r := s.(auths := s.auths[u := auth]);
    SlugTablesFrame(s, r);
    AccountsFrame(s, r);
    ReferencesGrow(s, r);
    ReviewsFrame(s, r);
  }
}
