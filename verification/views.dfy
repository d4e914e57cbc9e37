/** The request handlers of views.py over the store: category and genre create/delete,
    the nested review and comment endpoints, and the own-profile endpoint `users/me`. */
module Views {
  import opened Common
  import opened Models
  import opened Serializers
  import Ids
  import Text

  // ---------------------------------------------------------------- categories and genres

  /** Create on a slug-record table: validate the submission, then insert it with both
      fields stripped. */
  function CreateSlugRecord(m: map<nat, SlugRecord>, name: string, slug: string): (r: Result<(map<nat, SlugRecord>, nat)>)
    ensures r.Err? <==> SlugRecordErrors(m, name, slug) != {}
    ensures r.Err? ==> r.error == Invalid(SlugRecordErrors(m, name, slug))
    ensures r.Ok? ==> r.value.1 !in m && r.value.0 == m[r.value.1 := SlugRecord(Text.Strip(name), Text.Strip(slug))]
    ensures r.Ok? ==> ValidSlug(Text.Strip(slug)) && !SlugTaken(m, Text.Strip(slug))
  {
    var errs := SlugRecordErrors(m, name, slug);
    if errs != {} then Err(Invalid(errs)) else Ok(InsertSlugRecord(m, SlugRecord(Text.Strip(name), Text.Strip(slug))))
  }

  /** A slug sent with surrounding whitespace is accepted and stored without it. */
  lemma PaddedSlugStoredStripped()
    ensures CreateSlugRecord(map[], "Film", " film").Ok?
    ensures CreateSlugRecord(map[], "Film", " film").value.0.Values == {SlugRecord("Film", "film")}
  {
    assert Text.Strip(" film") == "film";
    assert Text.Strip("Film") == "Film";
    assert ValidSlug("film");
    assert SlugRecordErrors(map[], "Film", " film") == {};
    var (m, id) := CreateSlugRecord(map[], "Film", " film").value;
    assert m == map[id := SlugRecord("Film", "film")];
  }

  /** A created record keeps the table's slugs valid and unique. */
  lemma CreateSlugRecordPreservesSlugs(m: map<nat, SlugRecord>, name: string, slug: string)
    requires UniqueSlugs(m) && forall k :: k in m ==> ValidSlug(m[k].slug)
    ensures CreateSlugRecord(m, name, slug).Ok? ==>
      var m' := CreateSlugRecord(m, name, slug).value.0;
      UniqueSlugs(m') && forall k :: k in m' ==> ValidSlug(m'[k].slug)
  {
  }

  function CreateCategory(s: Store, name: string, slug: string): (r: Result<(Store, CategoryId)>)
    ensures r.Err? <==> SlugRecordErrors(s.categories, name, slug) != {}
    ensures r.Ok? ==> r.value.1 !in s.categories
    ensures r.Ok? ==> r.value.0 == s.(categories := s.categories[r.value.1 := SlugRecord(Text.Strip(name), Text.Strip(slug))])
  {
    match CreateSlugRecord(s.categories, name, slug)
    case Err(e) => Err(e)
    case Ok((m, id)) => Ok((s.(categories := m), id))
  }

  function CreateGenre(s: Store, name: string, slug: string): (r: Result<(Store, GenreId)>)
    ensures r.Err? <==> SlugRecordErrors(s.genres, name, slug) != {}
    ensures r.Ok? ==> r.value.1 !in s.genres
    ensures r.Ok? ==> r.value.0 == s.(genres := s.genres[r.value.1 := SlugRecord(Text.Strip(name), Text.Strip(slug))])
  {
    match CreateSlugRecord(s.genres, name, slug)
    case Err(e) => Err(e)
    case Ok((m, id)) => Ok((s.(genres := m), id))
  }

  lemma CreateCategoryPreservesValid(s: Store, name: string, slug: string)
    requires ValidStore(s)
    ensures CreateCategory(s, name, slug).Ok? ==> ValidStore(CreateCategory(s, name, slug).value.0)
  {
    if CreateCategory(s, name, slug).Ok? {
      var r := CreateCategory(s, name, slug).value.0;
      CreateSlugRecordPreservesSlugs(s.categories, name, slug);
      AccountsFrame(s, r);
      ReferencesGrow(s, r);
      ReviewsFrame(s, r);
    }
  }


  lemma CreateGenrePreservesValid(s: Store, name: string, slug: string)
    requires ValidStore(s)
    ensures CreateGenre(s, name, slug).Ok? ==> ValidStore(CreateGenre(s, name, slug).value.0)
  {
    if CreateGenre(s, name, slug).Ok? {
      var r := CreateGenre(s, name, slug).value.0;
      CreateSlugRecordPreservesSlugs(s.genres, name, slug);
      AccountsFrame(s, r);
      ReferencesGrow(s, r);
      ReviewsFrame(s, r);
    }
  }


  /** DELETE `categories/{slug}`. */
  function DestroyCategory(s: Store, slug: string): (r: Result<Store>)
    requires UniqueSlugs(s.categories)
    ensures !SlugTaken(s.categories, slug) ==> r == Err(NotFound)
    ensures forall c :: c in s.categories && s.categories[c].slug == slug ==> r == Ok(DeleteCategory(s, c))
  {
    match FindBySlug(s.categories, slug)
    case None => Err(NotFound)
    case Some(c) => Ok(DeleteCategory(s, c))
  }

  /** DELETE `genres/{slug}`. */
  function DestroyGenre(s: Store, slug: string): (r: Result<Store>)
    requires UniqueSlugs(s.genres)
    ensures !SlugTaken(s.genres, slug) ==> r == Err(NotFound)
    ensures forall g :: g in s.genres && s.genres[g].slug == slug ==> r == Ok(DeleteGenre(s, g))
  {
    match FindBySlug(s.genres, slug)
    case None => Err(NotFound)
    case Some(g) => Ok(DeleteGenre(s, g))
  }

  // ---------------------------------------------------------------- titles

  /** POST `titles`: validate the submission, insert the title with the category its slug
      names, then link it to the genres its slugs name. */
  function CreateTitle(s: Store, input: TitleInput, currentYear: int): (r: Result<(Store, TitleId)>)
    requires UniqueSlugs(s.categories) && UniqueSlugs(s.genres)
    ensures r.Err? <==> TitleErrors(s, input, currentYear) != {}
    ensures r.Err? ==> r.error == Invalid(TitleErrors(s, input, currentYear))
    ensures r.Ok? ==> r.value.1 !in s.titles && r.value.1 in r.value.0.titles
    ensures r.Ok? ==> r.value.0.titles == s.titles[r.value.1 := r.value.0.titles[r.value.1]]
    ensures r.Ok? ==> r.value.0 == s.(titles := r.value.0.titles, titleGenres := r.value.0.titleGenres)
    ensures r.Ok? ==> r.value.0.titleGenres == AddLinks(s.titleGenres, r.value.1, ResolveSlugs(s.genres, input.genre.value).value)
    ensures r.Ok? ==> var title := r.value.0.titles[r.value.1];
      && title.name == Text.Strip(input.name.value)
      && title.year == input.year.value && ValidYear(title.year, currentYear)
      && title.description == (if input.description.Some? then Text.Strip(input.description.value) else "")
      && title.category.Some? && title.category.value in s.categories
      && s.categories[title.category.value].slug == input.category.value
  {
    var errs := TitleErrors(s, input, currentYear);
    if errs != {} then Err(Invalid(errs))
    else
      var gids := ResolveSlugs(s.genres, input.genre.value).value;
      var c := FindBySlug(s.categories, input.category.value).value;
      var description := Patched("", input.description);
      Ok(InsertTitle(s, Title(Patched("", input.name), input.year.value, description, Some(c)), gids))
  }

  /** A created title keeps the store valid and is linked to exactly the genres whose
      slugs were submitted. */
  lemma CreateTitlePreservesValid(s: Store, input: TitleInput, currentYear: int)
    requires ValidStore(s)
    ensures CreateTitle(s, input, currentYear).Ok? ==> ValidStore(CreateTitle(s, input, currentYear).value.0)
    ensures CreateTitle(s, input, currentYear).Ok? ==> var (s', t) := CreateTitle(s, input, currentYear).value;
      forall g :: Linked(s'.titleGenres, t, g) <==> g in s.genres && s.genres[g].slug in input.genre.value
  {
    if CreateTitle(s, input, currentYear).Ok? {
      var (s', t) := CreateTitle(s, input, currentYear).value;
      var gids := ResolveSlugs(s.genres, input.genre.value).value;
      ResolvedRows(s.genres, input.genre.value);
      InsertTitlePreservesValid(s, s'.titles[t], gids);
    }
  }

  // ---------------------------------------------------------------- reviews

  /** GET `titles/{title_id}/reviews`. */
  function ListReviews(s: Store, t: TitleId): (r: Result<set<ReviewId>>)
    ensures t !in s.titles ==> r == Err(NotFound)
    ensures t in s.titles ==> r.Ok? && forall v :: v in r.value <==> v in s.reviews && s.reviews[v].title == t
  {
    if t !in s.titles then Err(NotFound) else Ok(set v | v in s.reviews && s.reviews[v].title == t)
  }

  /** POST `titles/{title_id}/reviews`: field validation, the duplicate guard, then the
      insert with the requester as author and the URL title as title. */
  function CreateReview(s: Store, requester: UserId, t: TitleId, input: ReviewInput): (r: Result<(Store, ReviewId)>)
    ensures ReviewFieldErrors(input, false) != {} ==> r == Err(Invalid(ReviewFieldErrors(input, false)))
    ensures ReviewFieldErrors(input, false) == {} && t !in s.titles ==> r == Err(NotFound)
    ensures ReviewFieldErrors(input, false) == {} && t in s.titles ==>
      (r.Ok? <==> !HasReview(s.reviews, t, requester)) && (r.Err? ==> r.error == NonFieldInvalid)
    ensures r.Ok? ==> input.text.Some? && input.score.Some? && r.value.1 !in s.reviews
    ensures r.Ok? ==>
      r.value.0 == s.(reviews := s.reviews[r.value.1 := Review(t, requester, Text.Strip(input.text.value), input.score.value)])
  {
    var errs := ReviewFieldErrors(input, false);
    if errs != {} then Err(Invalid(errs))
    else
      match ReviewValidate(s, Post, requester, t, input)
      case Err(e) => Err(e)
      case Ok(data) =>
        if t !in s.titles then Err(NotFound)
        else InsertReview(s, Review(t, requester, Patched("", data.text), data.score.value))
  }

  lemma CreateReviewPreservesValid(s: Store, requester: UserId, t: TitleId, input: ReviewInput)
    requires ValidStore(s) && requester in s.users
    ensures CreateReview(s, requester, t, input).Ok? ==> ValidStore(CreateReview(s, requester, t, input).value.0)
  {
    if CreateReview(s, requester, t, input).Ok? {
      InsertReviewPreservesValid(s, Review(t, requester, Text.Strip(input.text.value), input.score.value));
    }
  }

  /** Once a requester's review of a title is created, every further well-formed POST of
      theirs for that title is refused by the guard. */
  lemma SecondCreateReviewRefused(s: Store, requester: UserId, t: TitleId, first: ReviewInput, second: ReviewInput)
    requires CreateReview(s, requester, t, first).Ok?
    requires ReviewFieldErrors(second, false) == {}
    ensures CreateReview(CreateReview(s, requester, t, first).value.0, requester, t, second) == Err(NonFieldInvalid)
  {
    var (s1, id) := CreateReview(s, requester, t, first).value;
    assert s1.reviews[id].title == t && s1.reviews[id].author == requester;
  }

  /** A created review joins its title's listing, which then holds exactly one review by
      the requester: the new one. */
  lemma CreateReviewThenList(s: Store, requester: UserId, t: TitleId, input: ReviewInput)
    requires CreateReview(s, requester, t, input).Ok?
    ensures var (s', id) := CreateReview(s, requester, t, input).value;
      && ListReviews(s', t) == Ok(ListReviews(s, t).value + {id})
      && forall w :: w in ListReviews(s', t).value && s'.reviews[w].author == requester ==> w == id
  {
    var (s', id) := CreateReview(s, requester, t, input).value;
    assert !HasReview(s.reviews, t, requester);
    assert ListReviews(s', t).value == ListReviews(s, t).value + {id};
  }

  /** PUT or PATCH `titles/{title_id}/reviews/{review_id}`: the review must belong to the
      URL title; the duplicate guard does not run; title and author stay. */
  function UpdateReview(s: Store, requester: UserId, t: TitleId, v: ReviewId, verb: Method, input: ReviewInput): (r: Result<Store>)
    requires verb == Put || verb == Patch
    ensures t !in s.titles || v !in s.reviews || s.reviews[v].title != t ==> r == Err(NotFound)
    ensures t in s.titles && v in s.reviews && s.reviews[v].title == t ==>
      (r.Ok? <==> ReviewFieldErrors(input, verb == Patch) == {})
    ensures r.Ok? ==> r.value.reviews.Keys == s.reviews.Keys
    ensures r.Ok? ==> r.value.reviews[v].title == s.reviews[v].title && r.value.reviews[v].author == s.reviews[v].author
    ensures r.Ok? ==> forall w :: w in s.reviews && w != v ==> r.value.reviews[w] == s.reviews[w]
    ensures r.Ok? ==> r.value == s.(reviews := r.value.reviews)
    ensures r.Ok? ==> r.value.reviews[v].text == Patched(s.reviews[v].text, input.text)
    ensures r.Ok? && input.score.Some? ==> r.value.reviews[v].score == input.score.value
    ensures r.Ok? && input.score.None? ==> r.value.reviews[v].score == s.reviews[v].score
  {
    if t !in s.titles || v !in s.reviews || s.reviews[v].title != t then Err(NotFound)
    else
      var errs := ReviewFieldErrors(input, verb == Patch);
      if errs != {} then Err(Invalid(errs))
      else
        match ReviewValidate(s, verb, requester, t, input)
        case Err(e) => Err(e)
        case Ok(data) =>
          var stored := s.reviews[v];
          var score := if data.score.Some? then data.score.value else stored.score;
          Ok(s.(reviews := s.reviews[v := Review(stored.title, stored.author, Patched(stored.text, data.text), score)]))
  }

  lemma UpdateReviewPreservesValid(s: Store, requester: UserId, t: TitleId, v: ReviewId, verb: Method, input: ReviewInput)
    requires ValidStore(s) && (verb == Put || verb == Patch)
    ensures UpdateReview(s, requester, t, v, verb, input).Ok? ==> ValidStore(UpdateReview(s, requester, t, v, verb, input).value)
  {
    if UpdateReview(s, requester, t, v, verb, input).Ok? {
      var r := UpdateReview(s, requester, t, v, verb, input).value;
      ReplaceReviewPreservesValid(s, v, r.reviews[v]);
      assert r == s.(reviews := s.reviews[v := r.reviews[v]]);
    }
  }


  // ---------------------------------------------------------------- comments

  /** The review named in the URL exists and belongs to the URL title. */
  predicate ReviewOfTitle(s: Store, t: TitleId, v: ReviewId) {
    v in s.reviews && s.reviews[v].title == t
  }

  /** GET `titles/{title_id}/reviews/{review_id}/comments`. */
  function ListComments(s: Store, t: TitleId, v: ReviewId): (r: Result<set<CommentId>>)
    ensures !ReviewOfTitle(s, t, v) ==> r == Err(NotFound)
    ensures ReviewOfTitle(s, t, v) ==> r.Ok? && forall c :: c in r.value <==> c in s.comments && s.comments[c].review == v
  {
    if !ReviewOfTitle(s, t, v) then Err(NotFound) else Ok(set c | c in s.comments && s.comments[c].review == v)
  }

  /** POST `titles/{title_id}/reviews/{review_id}/comments`: the text is required and must
      not be blank once stripped; it is saved stripped. */
  function CreateComment(s: Store, requester: UserId, t: TitleId, v: ReviewId, text: Option<string>): (r: Result<(Store, CommentId)>)
    ensures text.None? || Text.Strip(text.value) == "" ==> r == Err(Invalid({Text}))
    ensures text.Some? && Text.Strip(text.value) != "" && !ReviewOfTitle(s, t, v) ==> r == Err(NotFound)
    ensures text.Some? && Text.Strip(text.value) != "" && ReviewOfTitle(s, t, v) ==> r.Ok?
    ensures r.Ok? ==> r.value.1 !in s.comments
    ensures r.Ok? ==> r.value.0 == s.(comments := s.comments[r.value.1 := Comment(v, requester, Text.Strip(text.value))])
  {
    if text.None? || Text.Strip(text.value) == "" then Err(Invalid({Text}))
    else if !ReviewOfTitle(s, t, v) then Err(NotFound)
    else Ok(InsertComment(s, Comment(v, requester, Text.Strip(text.value))))
  }

  /** A created comment joins its review's listing, and nothing else does. */
  lemma CreateCommentThenList(s: Store, requester: UserId, t: TitleId, v: ReviewId, text: Option<string>)
    requires CreateComment(s, requester, t, v, text).Ok?
    ensures var (s', id) := CreateComment(s, requester, t, v, text).value;
      ListComments(s', t, v) == Ok(ListComments(s, t, v).value + {id})
  {
    var (s', id) := CreateComment(s, requester, t, v, text).value;
    assert ListComments(s', t, v).value == ListComments(s, t, v).value + {id};
  }

  lemma CreateCommentPreservesValid(s: Store, requester: UserId, t: TitleId, v: ReviewId, text: Option<string>)
    requires ValidStore(s) && requester in s.users
    ensures CreateComment(s, requester, t, v, text).Ok? ==> ValidStore(CreateComment(s, requester, t, v, text).value.0)
  {
    if CreateComment(s, requester, t, v, text).Ok? {
      InsertCommentPreservesValid(s, Comment(v, requester, Text.Strip(text.value)));
    }
  }


  // ---------------------------------------------------------------- own profile

  /** `users/me` for the authenticated `requester`. The route takes GET and PATCH; the
      framework also routes HEAD to the GET action, and a HEAD request falls through both
      method tests of the handler to its explicit 400. */
  function UserProfile(s: Store, requester: UserId, verb: Method, patch: ProfilePatch): (r: Result<(Store, User)>)
    requires requester in s.users
    ensures verb == Get ==> r == Ok((s, s.users[requester]))
    ensures verb == Patch ==> (r.Ok? <==> ProfileErrors(s.users, requester, patch) == {})
    ensures verb == Patch && r.Err? ==> r.error == Invalid(ProfileErrors(s.users, requester, patch))
    ensures verb == Patch && r.Ok? ==> r.value.1 == ApplyProfilePatch(s.users[requester], patch)
    ensures verb == Head ==> r == Err(BadRequest)
    ensures verb != Get && verb != Head && verb != Patch ==> r == Err(MethodNotAllowed)
    ensures r.Ok? ==> r.value.0.users.Keys == s.users.Keys && r.value.1 == r.value.0.users[requester]
    ensures r.Ok? ==> forall w :: w in s.users && w != requester ==> r.value.0.users[w] == s.users[w]
    ensures r.Ok? ==> r.value.0.users[requester].role == s.users[requester].role
    ensures r.Ok? ==> r.value.0 == s.(users := r.value.0.users)
  {
    match verb
    case Get => Ok((s, s.users[requester]))
    case Patch =>
      var errs := ProfileErrors(s.users, requester, patch);
      if errs != {} then Err(Invalid(errs))
      else
        var u := ApplyProfilePatch(s.users[requester], patch);
        Ok((s.(users := s.users[requester := u]), u))
    case Head => Err(BadRequest)
    case _ => Err(MethodNotAllowed)
  }

  lemma UserProfilePreservesValid(s: Store, requester: UserId, verb: Method, patch: ProfilePatch)
    requires ValidStore(s) && requester in s.users
    ensures UserProfile(s, requester, verb, patch).Ok? ==> ValidStore(UserProfile(s, requester, verb, patch).value.0)
  {
    if verb == Patch && UserProfile(s, requester, verb, patch).Ok? {
      var u := ApplyProfilePatch(s.users[requester], patch);
      assert UserProfile(s, requester, verb, patch).value.0 == s.(users := s.users[requester := u]);
      PatchedAccountDistinct(s.users, requester, patch);
      ReplaceUserPreservesValid(s, requester, u);
    }
  }

  /** A patch without field errors gives the account a username and an e-mail that no
      other account has. */
  lemma PatchedAccountDistinct(users: map<UserId, User>, self: UserId, patch: ProfilePatch)
    requires self in users && UniqueUsernames(users) && UniqueEmails(users)
    requires ProfileErrors(users, self, patch) == {}
    ensures var u := ApplyProfilePatch(users[self], patch);
      forall w :: w in users && w != self ==> users[w].username != u.username && users[w].email != u.email
  {
    var u := ApplyProfilePatch(users[self], patch);
    forall w | w in users && w != self
      ensures users[w].username != u.username && users[w].email != u.email
    {
      if patch.username.Some? {
        assert !TakenByOther(users, self, u.username);
      }
      if patch.email.Some? {
        assert !EmailTakenByOther(users, self, u.email);
      }
    }
  }

}
