/** The title list filter of filters.py: `genre`, `category` and `name` are
    case-insensitive substring lookups (on the genre slugs, the category slug and the
    title name), `year` is an exact match. A text parameter is stripped of surrounding
    whitespace first, as the form field behind `CharFilter` does; a missing parameter,
    or one that strips to nothing, filters nothing. */
module Filters {
  import opened Common
  import opened Models
  import opened Text

  /** The query parameters of a title listing. */
  datatype TitleFilter = TitleFilter(genre: Option<string>, category: Option<string>, name: Option<string>, year: Option<int>)

  const NO_FILTER := TitleFilter(None, None, None, None)

  /** A text parameter that takes part in the query: present and not blank once stripped. */
  predicate Active(v: Option<string>) {
    v.Some? && Strip(v.value) != ""
  }

  /** `genre__slug__icontains`: some genre linked to the title has a slug containing `value`. */
  predicate GenreMatches(s: Store, t: TitleId, value: string) {
    exists l :: l in s.titleGenres && s.titleGenres[l].title == t && s.titleGenres[l].genre in s.genres &&
      ContainsIgnoreCase(s.genres[s.titleGenres[l].genre].slug, value)
  }

  /** `category__slug__icontains`: a title without a category never matches. */
  predicate CategoryMatches(s: Store, title: Title, value: string) {
    title.category.Some? && title.category.value in s.categories &&
    ContainsIgnoreCase(s.categories[title.category.value].slug, value)
  }

  predicate NameMatches(title: Title, value: string) {
    ContainsIgnoreCase(title.name, value)
  }

  /** Every active parameter, stripped, matches. */
  predicate Matches(s: Store, t: TitleId, f: TitleFilter)
    requires t in s.titles
  {
    && (Active(f.genre) ==> GenreMatches(s, t, Strip(f.genre.value)))
    && (Active(f.category) ==> CategoryMatches(s, s.titles[t], Strip(f.category.value)))
    && (Active(f.name) ==> NameMatches(s.titles[t], Strip(f.name.value)))
    && (f.year.Some? ==> s.titles[t].year == f.year.value)
  }

  /** The ids of the titles the listing returns. */
  function FilterTitles(s: Store, f: TitleFilter): (r: set<TitleId>)
    ensures r <= s.titles.Keys
    ensures forall t :: t in r <==> t in s.titles && Matches(s, t, f)
  {
    set t | t in s.titles && Matches(s, t, f)
  }

  /** The cleaned form of a text parameter: stripped, and dropped when that leaves nothing. */
  function Clean(v: Option<string>): (w: Option<string>)
    ensures Active(v) ==> w == Some(Strip(v.value))
    ensures !Active(v) ==> w.None?
  {
    if Active(v) then Some(Strip(v.value)) else None
  }

  /** `f` with every text parameter stripped and every blank one dropped. */
  function Normalize(f: TitleFilter): (g: TitleFilter)
    ensures g.genre == Clean(f.genre) && g.category == Clean(f.category) && g.name == Clean(f.name)
    ensures g.year == f.year
  {
    TitleFilter(Clean(f.genre), Clean(f.category), Clean(f.name), f.year)
  }

  /** A cleaned parameter is active exactly when the original is, and asks for the same. */
  lemma CleanKeepsQuery(v: Option<string>)
    ensures Active(Clean(v)) <==> Active(v)
    ensures Active(v) ==> Strip(Clean(v).value) == Strip(v.value)
  {
    if Active(v) {
      StripIdempotent(v.value);
    }
  }

  /** Surrounding whitespace in a parameter does not change the listing, and a blank
      parameter is the same as an absent one, including for the titles whose category is
      null, which an active category lookup would drop. */
  lemma BlankIsAbsent(s: Store, f: TitleFilter)
    ensures FilterTitles(s, f) == FilterTitles(s, Normalize(f))
  {
    CleanKeepsQuery(f.genre);
    CleanKeepsQuery(f.category);
    CleanKeepsQuery(f.name);
  }

  /** Without parameters the listing is every title. */
  lemma NoFilterKeepsAll(s: Store)
    ensures FilterTitles(s, NO_FILTER) == s.titles.Keys
  {
  }

  /** The parameters combine by intersection: filtering by all of them is filtering by
      each one alone and keeping the titles every one kept. */
  lemma FiltersIntersect(s: Store, f: TitleFilter)
    ensures FilterTitles(s, f) ==
      FilterTitles(s, NO_FILTER.(genre := f.genre)) * FilterTitles(s, NO_FILTER.(category := f.category)) *
      FilterTitles(s, NO_FILTER.(name := f.name)) * FilterTitles(s, NO_FILTER.(year := f.year))
  {
  }

  /** `g` asks for at least what `f` asks for. */
  predicate Refines(g: TitleFilter, f: TitleFilter) {
    && (Active(f.genre) ==> g.genre == f.genre)
    && (Active(f.category) ==> g.category == f.category)
    && (Active(f.name) ==> g.name == f.name)
    && (f.year.Some? ==> g.year == f.year)
  }

  /** Adding parameters never enlarges the listing. */
  lemma RefiningNarrows(s: Store, f: TitleFilter, g: TitleFilter)
    requires Refines(g, f)
    ensures FilterTitles(s, g) <= FilterTitles(s, f)
  {
  }

  /** Lower-casing a parameter keeps it active exactly when it was, and the stripped
      query then differs only in case. */
  lemma LowerKeepsQuery(v: Option<string>)
    ensures Active(LowerOpt(v)) <==> Active(v)
    ensures Active(v) ==> Lower(Strip(LowerOpt(v).value)) == Lower(Strip(v.value))
  {
    if v.Some? {
      LowerStrip(v.value);
      LowerIdempotent(Strip(v.value));
    }
  }

  /** The text lookups ignore the case of the parameter. */
  lemma ParameterCaseIgnored(s: Store, f: TitleFilter)
    ensures FilterTitles(s, f) == FilterTitles(s, TitleFilter(LowerOpt(f.genre), LowerOpt(f.category), LowerOpt(f.name), f.year))
  {
    LowerKeepsQuery(f.genre);
    LowerKeepsQuery(f.category);
    LowerKeepsQuery(f.name);
  }

  function LowerOpt(v: Option<string>): (w: Option<string>)
    ensures w.Some? <==> v.Some?
    ensures v.Some? ==> w.value == Lower(v.value)
  {
    if v.Some? then Some(Lower(v.value)) else None
  }

  /** A `name` parameter lists exactly the titles whose name contains the stripped
      parameter, ignoring case. */
  lemma NameFragmentFindsTitle(s: Store, fragment: string)
    requires Strip(fragment) != ""
    ensures forall t :: t in FilterTitles(s, NO_FILTER.(name := Some(fragment))) <==>
      t in s.titles && exists i :: OccursAt(Lower(Strip(fragment)), Lower(s.titles[t].name), i)
  {
  }

  /** "Dune" is found by the name fragment "uN" sent with surrounding spaces. */
  lemma PaddedFragmentFindsDune(s: Store, t: TitleId)
    requires t in s.titles && s.titles[t].name == "Dune"
    ensures t in FilterTitles(s, NO_FILTER.(name := Some(" uN ")))
  {
    assert Strip(" uN ") == "uN";
    assert Lower("Dune") == "dune";
    assert Lower("uN") == "un";
    assert OccursAt("un", "dune", 1);
    NameFragmentFindsTitle(s, " uN ");
  }
}
