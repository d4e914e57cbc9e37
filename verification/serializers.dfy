/** The validation and shaping rules of serializers.py: slug records, the reserved
    username, signup, the self-profile patch, the review guard and the title
    representation. Every character field strips surrounding whitespace before it is
    validated and saved, as DRF's `CharField` does by default; a value that strips to the
    empty string is blank. */
module Serializers {
  import opened Common
  import opened Models
  import Text
  import Auth
  import Rating

  // ---------------------------------------------------------------- categories and genres

  /** The fields of a category or genre submission that fail validation, judged on the
      stripped values. */
  function SlugRecordErrors(m: map<nat, SlugRecord>, name: string, slug: string): (errs: set<Field>)
    ensures Name in errs <==> Text.Strip(name) == "" || |Text.Strip(name)| > NAME_MAX_LENGTH
    ensures Slug in errs <==> !ValidSlug(Text.Strip(slug)) || SlugTaken(m, Text.Strip(slug))
    ensures errs <= {Name, Slug}
  {
    (if Text.Strip(name) == "" || |Text.Strip(name)| > NAME_MAX_LENGTH then {Name} else {}) +
    (if !ValidSlug(Text.Strip(slug)) || SlugTaken(m, Text.Strip(slug)) then {Slug} else {})
  }

  // ---------------------------------------------------------------- signup

  /** `validate_username`: the lower-cased value must not be "me". */
  function ValidateUsername(value: string): (r: Result<string>)
    ensures r.Ok? <==> Text.Lower(value) != "me"
    ensures r.Ok? ==> r.value == value
    ensures r.Err? ==> r.error == Invalid({Username})
  {
    if Text.Lower(value) == "me" then Err(Invalid({Username})) else Ok(value)
  }

  /** The reserved check rejects exactly the four spellings of "me". */
  lemma ReservedUsernames(value: string)
    ensures ValidateUsername(value).Err? <==> value in {"me", "Me", "mE", "ME"}
  {
    if |value| == 2 && Text.Lower(value) == "me" {
      assert Text.Lower(value)[0] == 'm' && Text.Lower(value)[1] == 'e';
      assert value[0] == 'm' || value[0] == 'M';
      assert value[1] == 'e' || value[1] == 'E';
      assert value == [value[0], value[1]];
    }
    if value in {"me", "Me", "mE", "ME"} {
      assert Text.Lower(value) == "me";
    }
  }

  lemma ReservedExamples()
    ensures ValidateUsername("meme") == Ok("meme")
    ensures ValidateUsername("Me1") == Ok("Me1")
    ensures ValidateUsername("ME").Err?
  {
    ReservedUsernames("meme");
    ReservedUsernames("Me1");
    ReservedUsernames("ME");
  }

  /** The fields of a signup request that fail validation, judged on the stripped values:
      both are required, the columns' lengths bound them, the columns are unique, and "me"
      is reserved. */
  function SignUpErrors(users: map<UserId, User>, username: string, email: string): (errs: set<Field>)
    ensures var u := Text.Strip(username);
      Username in errs <==>
      u == "" || |u| > USERNAME_MAX_LENGTH || UsernameTaken(users, u) || ValidateUsername(u).Err?
    ensures var e := Text.Strip(email);
      Email in errs <==> e == "" || |e| > EMAIL_MAX_LENGTH || EmailTaken(users, e)
    ensures errs <= {Username, Email}
  {
    var username, email := Text.Strip(username), Text.Strip(email);
    (if username == "" || |username| > USERNAME_MAX_LENGTH || UsernameTaken(users, username)
        || ValidateUsername(username).Err? then {Username} else {}) +
    (if email == "" || |email| > EMAIL_MAX_LENGTH || EmailTaken(users, email) then {Email} else {})
  }

  /** Signup as the source writes it: `create` mails the code first and creates the
      account afterwards. */
  function SignUpAsWritten(s: Store, username: string, email: string, code: string): (r: Result<(Store, Auth.Mail)>)
    requires UniqueUsernames(s.users)
    ensures SignUpErrors(s.users, username, email) != {} ==>
      r == Err(Invalid(SignUpErrors(s.users, username, email)))
    ensures r.Ok? ==> UsernameTaken(s.users, Text.Strip(username))
  {
    var errs := SignUpErrors(s.users, username, email);
    if errs != {} then Err(Invalid(errs))
    else
      var username, email := Text.Strip(username), Text.Strip(email);
      match Auth.SendMessage(s, email, username, code)
      case Err(e) => Err(e)
      case Ok((s1, mail)) =>
        match CreateUserRecord(s1, username, email)
        case Err(e) => Err(e)
        case Ok((s2, _)) => Ok((s2, mail))
  }

  /** Every valid signup reaches `send_message` for a username no account has, so the
      lookup there raises and no signup ever succeeds. */
  lemma SignUpAsWrittenNeverSucceeds(s: Store, username: string, email: string, code: string)
    requires UniqueUsernames(s.users)
    ensures SignUpAsWritten(s, username, email, code).Err?
    ensures SignUpErrors(s.users, username, email) == {} ==>
      SignUpAsWritten(s, username, email, code) == Err(Missing)
  {
  }

  /** Signup with the account created before the code is mailed. */
  function SignUp(s: Store, username: string, email: string, code: string): (r: Result<(Store, Auth.Mail)>)
    requires AccountsValid(s)
    ensures r.Err? <==> SignUpErrors(s.users, username, email) != {}
    ensures r.Err? ==> r.error == Invalid(SignUpErrors(s.users, username, email))
    ensures r.Ok? ==> r.value.1 == Auth.Mail(Auth.MAIL_SUBJECT, Auth.MailMessage(Text.Strip(username), code), [Text.Strip(email)])
    ensures r.Ok? ==> var msg := r.value.1.message; |code| <= |msg| && msg[|msg| - |code|..] == code
    ensures r.Ok? ==> AccountsValid(r.value.0)
    ensures r.Ok? ==> exists u: UserId ::
      && u !in s.users
      && r.value.0 == s.(users := s.users[u := NewUser(Text.Strip(username), Text.Strip(email))],
                         auths := s.auths[u := UserAuth(code)])
  {
    var errs := SignUpErrors(s.users, username, email);
    if errs != {} then Err(Invalid(errs))
    else
      var username, email := Text.Strip(username), Text.Strip(email);
      CreateUserRecordAccounts(s, username, email);
      var (s1, u) := CreateUserRecord(s, username, email).value;
      assert s1.users[u].username == username;
      var sent := Auth.SendMessage(s1, email, username, code);
      assert sent.Ok? && sent.value.0 == s1.(auths := s1.auths[u := UserAuth(code)]);
      sent
  }

  lemma SignUpPreservesValid(s: Store, username: string, email: string, code: string)
    requires ValidStore(s)
    ensures SignUp(s, username, email, code).Ok? ==> ValidStore(SignUp(s, username, email, code).value.0)
  {
    if SignUpErrors(s.users, username, email) == {} {
      var username, email := Text.Strip(username), Text.Strip(email);
      CreateUserRecordPreservesValid(s, username, email);
      var s1 := CreateUserRecord(s, username, email).value.0;
      Auth.SendMessagePreservesValid(s1, email, username, code);
    }
  }

  /** After a successful signup the new account, named as at signup, exchanges the mailed
      code, and only that code, for a token naming it. */
  lemma SignUpThenToken(s: Store, username: string, email: string, code: string, presented: string)
    requires ValidStore(s) && Text.Strip(presented) != ""
    requires SignUp(s, username, email, code).Ok?
    ensures var s' := SignUp(s, username, email, code).value.0;
      var r := Auth.GetJwtToken(s', username, presented);
      && (r.Ok? <==> Text.Strip(presented) == code)
      && (r.Ok? ==> r.value.user in s'.users && s'.users[r.value.user] == NewUser(Text.Strip(username), Text.Strip(email)))
      && (r.Err? ==> r.error == BadRequest)
  {
    var name, mail := Text.Strip(username), Text.Strip(email);
    CreateUserRecordPreservesValid(s, name, mail);
    var (s1, u) := CreateUserRecord(s, name, mail).value;
    Auth.ExchangeAfterSend(s1, mail, name, code, username, presented);
  }

  // ---------------------------------------------------------------- self profile

  /** A partial update of the own profile; `role` may be sent but the field is read-only. */
  datatype ProfilePatch = ProfilePatch(
    username: Option<string>, email: Option<string>, firstName: Option<string>,
    lastName: Option<string>, bio: Option<string>, role: Option<string>)

  predicate TakenByOther(users: map<UserId, User>, self: UserId, username: string) {
    exists v :: v in users && v != self && users[v].username == username
  }

  predicate EmailTakenByOther(users: map<UserId, User>, self: UserId, email: string) {
    exists v :: v in users && v != self && users[v].email == email
  }

  /** The fields of a profile patch that fail validation, each judged on its stripped
      value: username and e-mail non-blank, within their lengths and owned by no other
      account; first and last name within 150 characters. */
  function ProfileErrors(users: map<UserId, User>, self: UserId, p: ProfilePatch): (errs: set<Field>)
    ensures Username in errs <==> p.username.Some? && var u := Text.Strip(p.username.value);
      u == "" || |u| > USERNAME_MAX_LENGTH || TakenByOther(users, self, u)
    ensures Email in errs <==> p.email.Some? && var e := Text.Strip(p.email.value);
      e == "" || |e| > EMAIL_MAX_LENGTH || EmailTakenByOther(users, self, e)
    ensures FirstName in errs <==> p.firstName.Some? && |Text.Strip(p.firstName.value)| > PERSON_NAME_MAX_LENGTH
    ensures LastName in errs <==> p.lastName.Some? && |Text.Strip(p.lastName.value)| > PERSON_NAME_MAX_LENGTH
    ensures errs <= {Username, Email, FirstName, LastName}
  {
    set f | f in {Username, Email, FirstName, LastName} && ProfileFieldFails(users, self, p, f)
  }

  /** The check of one field of a profile patch fails; an unsent field never fails. */
  predicate ProfileFieldFails(users: map<UserId, User>, self: UserId, p: ProfilePatch, f: Field) {
    match f
    case Username => p.username.Some? && var u := Patched("", p.username);
      u == "" || |u| > USERNAME_MAX_LENGTH || TakenByOther(users, self, u)
    case Email => p.email.Some? && var e := Patched("", p.email);
      e == "" || |e| > EMAIL_MAX_LENGTH || EmailTakenByOther(users, self, e)
    case FirstName => p.firstName.Some? && |Patched("", p.firstName)| > PERSON_NAME_MAX_LENGTH
    case LastName => p.lastName.Some? && |Patched("", p.lastName)| > PERSON_NAME_MAX_LENGTH
    case _ => false
  }

  /** The value a partial write leaves in a character field: the sent value, stripped, or
      the stored one when nothing was sent. */
  function Patched(stored: string, sent: Option<string>): (r: string)
    ensures sent.Some? ==> r == Text.Strip(sent.value)
    ensures sent.None? ==> r == stored
  {
    if sent.Some? then Text.Strip(sent.value) else stored
  }

  /** The saved record: every writable field sent replaces the stored one with its
      stripped value; the unsent ones stay; `role` never changes. */
  function ApplyProfilePatch(u: User, p: ProfilePatch): (r: User)
    ensures r.role == u.role
    ensures p.username.Some? ==> r.username == Text.Strip(p.username.value)
    ensures p.username.None? ==> r.username == u.username
    ensures p.email.Some? ==> r.email == Text.Strip(p.email.value)
    ensures p.email.None? ==> r.email == u.email
    ensures p.firstName.Some? ==> r.firstName == Text.Strip(p.firstName.value)
    ensures p.firstName.None? ==> r.firstName == u.firstName
    ensures p.lastName.Some? ==> r.lastName == Text.Strip(p.lastName.value)
    ensures p.lastName.None? ==> r.lastName == u.lastName
    ensures p.bio.Some? ==> r.bio == Text.Strip(p.bio.value)
    ensures p.bio.None? ==> r.bio == u.bio
    ensures p == ProfilePatch(None, None, None, None, None, p.role) ==> r == u
  {
    User(Patched(u.username, p.username), Patched(u.email, p.email), Patched(u.firstName, p.firstName),
         Patched(u.lastName, p.lastName), Patched(u.bio, p.bio), u.role)
  }

  // ---------------------------------------------------------------- reviews

  /** The writable fields of a review request; absent on a partial update when not sent. */
  datatype ReviewInput = ReviewInput(text: Option<string>, score: Option<int>)

  /** Field validation of a review: text not blank once stripped, score within 1..10, both
      required unless the update is partial. */
  function ReviewFieldErrors(input: ReviewInput, partial: bool): (errs: set<Field>)
    ensures Text in errs <==> (input.text.None? && !partial) || (input.text.Some? && Text.Strip(input.text.value) == "")
    ensures Score in errs <==> (input.score.None? && !partial) || (input.score.Some? && !ValidScore(input.score.value))
    ensures errs <= {Text, Score}
  {
    (if (input.text.None? && !partial) || (input.text.Some? && Text.Strip(input.text.value) == "") then {Text} else {}) +
    (if (input.score.None? && !partial) || (input.score.Some? && !ValidScore(input.score.value)) then {Score} else {})
  }

  /** `ReviewSerializer.validate`: the URL title must exist; a POST is refused when the
      requester already reviewed it; the data passes through unchanged. */
  function ReviewValidate(s: Store, verb: Method, requester: UserId, title: TitleId, data: ReviewInput): (r: Result<ReviewInput>)
    ensures title !in s.titles ==> r == Err(NotFound)
    ensures title in s.titles && verb == Post ==> (r.Err? <==> HasReview(s.reviews, title, requester))
    ensures title in s.titles && verb != Post ==> r.Ok?
    ensures title in s.titles && r.Err? ==> r.error == NonFieldInvalid
    ensures r.Ok? ==> r.value == data
  {
    if title !in s.titles then Err(NotFound)
    else if verb == Post && HasReview(s.reviews, title, requester) then Err(NonFieldInvalid)
    else Ok(data)
  }

  // ---------------------------------------------------------------- title input

  /** The writable fields of a title submission, each absent when not sent. */
  datatype TitleInput = TitleInput(
    name: Option<string>, year: Option<int>, description: Option<string>,
    genre: Option<seq<string>>, category: Option<string>)

  /** The fields of a title submission that fail validation. The name and the year are
      required, the description is optional, both character fields are judged stripped;
      every genre slug and the category slug must name an existing row exactly as sent.
      `currentYear` is the year read when the models were loaded. */
  function TitleErrors(s: Store, input: TitleInput, currentYear: int): (errs: set<Field>)
    ensures Name in errs <==>
      (input.name.None? || Text.Strip(input.name.value) == "" || |Text.Strip(input.name.value)| > NAME_MAX_LENGTH)
    ensures Year in errs <==> (input.year.None? || !ValidYear(input.year.value, currentYear))
    ensures Description in errs <==>
      (input.description.Some? && |Text.Strip(input.description.value)| > DESCRIPTION_MAX_LENGTH)
    ensures GenreList in errs <==>
      (input.genre.None? || exists i :: 0 <= i < |input.genre.value| && !SlugTaken(s.genres, input.genre.value[i]))
    ensures CategoryRef in errs <==> (input.category.None? || !SlugTaken(s.categories, input.category.value))
    ensures errs <= {Name, Year, Description, GenreList, CategoryRef}
  {
    set f | f in {Name, Year, Description, GenreList, CategoryRef} && TitleFieldFails(s, input, currentYear, f)
  }

  /** The check of one field of a title submission fails. */
  predicate TitleFieldFails(s: Store, input: TitleInput, currentYear: int, f: Field) {
    match f
    case Name => var name := Patched("", input.name); input.name.None? || name == "" || |name| > NAME_MAX_LENGTH
    case Year => input.year.None? || !ValidYear(input.year.value, currentYear)
    case Description => input.description.Some? && |Patched("", input.description)| > DESCRIPTION_MAX_LENGTH
    case GenreList => input.genre.None? ||
      exists i :: 0 <= i < |input.genre.value| && !SlugTaken(s.genres, input.genre.value[i])
    case CategoryRef => input.category.None? || !SlugTaken(s.categories, input.category.value)
    case _ => false
  }

  // ---------------------------------------------------------------- title representation

  /** The primary key of each slug, in the order given; `None` when some slug names no row. */
  function ResolveSlugs(m: map<nat, SlugRecord>, slugs: seq<string>): (r: Option<seq<nat>>)
    requires UniqueSlugs(m)
    ensures r.Some? <==> forall i :: 0 <= i < |slugs| ==> SlugTaken(m, slugs[i])
    ensures r.Some? ==> |r.value| == |slugs|
    ensures r.Some? ==> forall i :: 0 <= i < |slugs| ==> r.value[i] in m && m[r.value[i]].slug == slugs[i]
    decreases |slugs|
  {
    if slugs == [] then Some([])
    else
      match ResolveSlugs(m, slugs[..|slugs| - 1])
      case None => None
      case Some(init) =>
        match FindBySlug(m, slugs[|slugs| - 1])
        case None => None
        case Some(k) => Some(init + [k])
  }

  /** The resolved keys are exactly the rows whose slug was asked for. */
  lemma ResolvedRows(m: map<nat, SlugRecord>, slugs: seq<string>)
    requires UniqueSlugs(m) && ResolveSlugs(m, slugs).Some?
    ensures forall k :: k in m ==> (k in ResolveSlugs(m, slugs).value <==> m[k].slug in slugs)
  {
    var ids := ResolveSlugs(m, slugs).value;
    forall k | k in m && m[k].slug in slugs ensures k in ids {
      var i :| 0 <= i < |slugs| && slugs[i] == m[k].slug;
      assert m[ids[i]].slug == m[k].slug;
    }
  }

  /** The `{name, slug}` of each genre slug, in the order given; a slug with no genre
      makes `Genre.objects.get` raise. */
  function ExpandGenres(genres: map<GenreId, Genre>, slugs: seq<string>): (r: Result<seq<Genre>>)
    requires UniqueSlugs(genres)
    ensures r.Ok? <==> forall i :: 0 <= i < |slugs| ==> SlugTaken(genres, slugs[i])
    ensures r.Err? ==> r.error == Missing
    ensures r.Ok? ==> |r.value| == |slugs|
    ensures r.Ok? ==> forall i :: 0 <= i < |slugs| ==> r.value[i].slug == slugs[i] && r.value[i] in genres.Values
  {
    match ResolveSlugs(genres, slugs)
    case None => Err(Missing)
    case Some(ids) =>
      var gs := seq(|ids|, i requires 0 <= i < |ids| => genres[ids[i]]);
      assert forall i :: 0 <= i < |slugs| ==> gs[i] == genres[ids[i]];
      Ok(gs)
  }

  /** `links` lists each genre link row of title `t` once, in the database's order. */
  predicate EnumeratesLinks(s: Store, t: TitleId, links: seq<LinkId>) {
    && (forall i :: 0 <= i < |links| ==> links[i] in s.titleGenres && s.titleGenres[links[i]].title == t)
    && (forall l :: l in s.titleGenres && s.titleGenres[l].title == t ==> l in links)
    && (forall i, j :: 0 <= i < j < |links| ==> links[i] != links[j])
  }

  /** The genres the link rows name, in link order. */
  function LinkedGenres(s: Store, links: seq<LinkId>): (gs: seq<Genre>)
    requires ReferencesResolve(s)
    requires forall i :: 0 <= i < |links| ==> links[i] in s.titleGenres
    ensures |gs| == |links|
  {
    seq(|links|, i requires 0 <= i < |links| => s.genres[s.titleGenres[links[i]].genre])
  }

  function SlugsOf(gs: seq<Genre>): (slugs: seq<string>)
    ensures |slugs| == |gs| && forall i :: 0 <= i < |gs| ==> slugs[i] == gs[i].slug
  {
    seq(|gs|, i requires 0 <= i < |gs| => gs[i].slug)
  }

  /** Expanding the slugs of stored genres gives back those genres, same length and order. */
  lemma ExpandStoredGenres(s: Store, links: seq<LinkId>)
    requires ValidStore(s)
    requires forall i :: 0 <= i < |links| ==> links[i] in s.titleGenres
    ensures ExpandGenres(s.genres, SlugsOf(LinkedGenres(s, links))) == Ok(LinkedGenres(s, links))
  {
    var gs := LinkedGenres(s, links);
    var r := ExpandGenres(s.genres, SlugsOf(gs));
    forall i | 0 <= i < |gs| ensures SlugTaken(s.genres, SlugsOf(gs)[i]) {
      assert s.titleGenres[links[i]].genre in s.genres;
    }
    assert r.Ok?;
    forall i | 0 <= i < |gs| ensures r.value[i] == gs[i] {
      var g :| g in s.genres && s.genres[g] == r.value[i];
      assert s.genres[s.titleGenres[links[i]].genre].slug == s.genres[g].slug;
    }
    assert r.value == gs;
  }

  datatype TitleRepr = TitleRepr(
    id: TitleId, name: string, year: int, rating: Option<real>, description: string,
    genre: seq<Genre>, category: Option<Category>)

  /** `to_representation` as the source writes it: the category is looked up by the slug
      the field produced, which for a title without a category is null and matches no
      row. */
  ghost function TitleRepresentationAsWritten(s: Store, t: TitleId, links: seq<LinkId>): (r: Result<TitleRepr>)
    requires ValidStore(s) && t in s.titles && EnumeratesLinks(s, t, links)
    ensures r.Err? <==> s.titles[t].category.None?
    ensures r.Err? ==> r.error == Missing && Status(r.error) == 500
  {
    ExpandStoredGenres(s, links);
    var title := s.titles[t];
    match ExpandGenres(s.genres, SlugsOf(LinkedGenres(s, links)))
    case Err(e) => Err(e)
    case Ok(genre) =>
      match title.category
      case None => Err(Missing)
      case Some(c) =>
        Ok(TitleRepr(t, title.name, title.year, Rating.Rating(s, t), title.description, genre, Some(s.categories[c])))
  }

  /** `to_representation` with a null category rendered as null. */
  ghost function TitleRepresentation(s: Store, t: TitleId, links: seq<LinkId>): (r: Result<TitleRepr>)
    requires ValidStore(s) && t in s.titles && EnumeratesLinks(s, t, links)
    ensures r.Ok?
    ensures r.value.genre == LinkedGenres(s, links)
    ensures r.value.category.None? <==> s.titles[t].category.None?
    ensures r.value.category.Some? ==> r.value.category.value == s.categories[s.titles[t].category.value]
    ensures r.value.rating == Rating.Rating(s, t)
    ensures r.value.id == t && r.value.name == s.titles[t].name && r.value.year == s.titles[t].year
    ensures r.value.description == s.titles[t].description
  {
    ExpandStoredGenres(s, links);
    var title := s.titles[t];
    var genre := ExpandGenres(s.genres, SlugsOf(LinkedGenres(s, links))).value;
    var category := match title.category
      case None => None
      case Some(c) => Some(s.categories[c]);
    Ok(TitleRepr(t, title.name, title.year, Rating.Rating(s, t), title.description, genre, category))
  }

  /** Deleting a category leaves its titles with a null category, which the source's
      representation cannot render and the corrected one renders as null. */
  lemma CategoryDeleteBreaksRepresentation(s: Store, c: CategoryId, t: TitleId, links: seq<LinkId>)
    requires ValidStore(s) && t in s.titles && EnumeratesLinks(s, t, links)
    requires s.titles[t].category == Some(c)
    ensures var s' := DeleteCategory(s, c);
      && ValidStore(s') && t in s'.titles && EnumeratesLinks(s', t, links)
      && TitleRepresentationAsWritten(s', t, links) == Err(Missing)
      && TitleRepresentation(s', t, links).value.category == None
  {
    DeleteCategoryPreservesValid(s, c);
  }
}
