/** The recipe grid of the listing pages: date parsing, newest-first
    ordering, category links and labels, title links and the "show more"
    pagination.  The thumbnail derivation lives in `VideoThumbnail`. */
module RecipeGrid {
  import opened Wrappers
  import opened Text
  import opened Seqs
  import opened Records
  import opened JsNumber
  import opened Calendar
  import opened CategoryMapping
  import opened VideoThumbnail

  // ---------------------------------------------------------------------
  // parseDate

  /** `parseDate(dateStr)`: `DD/MM/YYYY` read with `parseInt` and handed to
      `new Date(year, month - 1, day)`; anything else falls back to
      `new Date(0)`, day 0. */
  function ParseDate(dateStr: Option<string>): TimeValue {
    if dateStr.None? then Day(0)
    else
      var parts := Split(dateStr.value, '/');
      if |parts| != 3 then Day(0)
      else
        var day := ParseInt(parts[0]);
        var month := ParseInt(parts[1]);
        var year := ParseInt(parts[2]);
        if day.None? || month.None? || year.None? then Day(0)
        else NewDate(year.value, month.value, day.value)
  }

  /** The three fallbacks: no string, not three `/`-separated parts, or a
      part without a leading integer all give the epoch. */
  lemma ParseDateFallsBack(dateStr: Option<string>)
    requires || dateStr.None?
             || |Split(dateStr.value, '/')| != 3
             || ParseInt(Split(dateStr.value, '/')[0]).None?
             || ParseInt(Split(dateStr.value, '/')[1]).None?
             || ParseInt(Split(dateStr.value, '/')[2]).None?
    ensures ParseDate(dateStr) == Day(0)
  {
  }

  /** Three parts that each start with an integer give that date. */
  lemma ParseDateParts(s: string, day: int, month: int, year: int)
    requires |Split(s, '/')| == 3
    requires ParseInt(Split(s, '/')[0]) == Some(day)
    requires ParseInt(Split(s, '/')[1]) == Some(month)
    requires ParseInt(Split(s, '/')[2]) == Some(year)
    ensures ParseDate(Some(s)) == NewDate(year, month, day)
  {
  }

  lemma DigitsHaveNoSlash(ds: string)
    requires AllDigits(ds)
    ensures '/' !in ds
  {
  }

  lemma SplitDate(d: string, m: string, y: string)
    requires '/' !in d && '/' !in m && '/' !in y
    ensures Split(d + "/" + m + "/" + y, '/') == [d, m, y]
  {
    assert d + "/" + m + "/" + y == d + ['/'] + (m + ['/'] + y);
    SplitAfter(d, '/', m + ['/'] + y);
    SplitAfter(m, '/', y);
    SplitNoSeparator(y, '/');
  }

  lemma ParseWholeDigits(ds: string)
    requires ds != [] && AllDigits(ds)
    ensures ParseInt(ds) == Some(DecimalValue(ds) as int)
  {
    ParseIntDigits(ds, "");
    assert ds + "" == ds;
  }

  /** Three runs of digits separated by `/` denote that calendar day, with
      an out-of-range day or month rolling over, and an Invalid Date when
      the day lies more than 10^8 days from the epoch. */
  lemma ParseDateDigits(d: string, m: string, y: string)
    requires d != [] && AllDigits(d) && m != [] && AllDigits(m) && y != [] && AllDigits(y)
    ensures ParseDate(Some(d + "/" + m + "/" + y))
         == TimeClip(DateFromParts(DecimalValue(y), DecimalValue(m), DecimalValue(d)))
  {
    DigitsHaveNoSlash(d);
    DigitsHaveNoSlash(m);
    DigitsHaveNoSlash(y);
    SplitDate(d, m, y);
    ParseWholeDigits(d);
    ParseWholeDigits(m);
    ParseWholeDigits(y);
    ParseDateParts(d + "/" + m + "/" + y, DecimalValue(d), DecimalValue(m), DecimalValue(y));
  }

  /** For a real date with a year of 100 or more, `DD/MM/YYYY` is that day
      of the calendar up to 13 September 275760, and an Invalid Date after
      it. */
  lemma ParseDateValid(d: string, m: string, y: string)
    requires d != [] && AllDigits(d) && m != [] && AllDigits(m) && y != [] && AllDigits(y)
    requires DecimalValue(y) >= 100
    requires ValidDate(DecimalValue(y), DecimalValue(m), DecimalValue(d))
    ensures ParseDate(Some(d + "/" + m + "/" + y)).Day?
        <==> || DecimalValue(y) < 275760
             || (DecimalValue(y) == 275760 && (DecimalValue(m) < 9 || (DecimalValue(m) == 9 && DecimalValue(d) <= 13)))
    ensures ParseDate(Some(d + "/" + m + "/" + y)).Day? ==>
              ParseDate(Some(d + "/" + m + "/" + y)).n == DayNumber(DecimalValue(y), DecimalValue(m), DecimalValue(d))
  {
    ParseDateDigits(d, m, y);
    NewDateRange(DecimalValue(y), DecimalValue(m), DecimalValue(d));
  }

  /** A date past the year 275760 is an Invalid Date. */
  lemma ParseDateTooLate()
    ensures ParseDate(Some("1" + "/" + "1" + "/" + "300000")) == NaN
  {
    assert DecimalValue("1") == 1;
    assert DecimalValue("300000") == 300000 by {
      assert "300000"[..5] == "30000";
      assert "30000"[..4] == "3000";
      assert "3000"[..3] == "300";
      assert "300"[..2] == "30";
      assert "30"[..1] == "3";
    }
    ParseDateDigits("1", "1", "300000");
    NewDateRange(300000, 1, 1);
  }

  // ---------------------------------------------------------------------
  // Newest-first order

  /** A recipe whose `Date` gives a valid time value (a missing or
      malformed date gives the epoch, which is one). */
  predicate HasTime(r: Recipe) {
    ParseDate(Get(r, "Date")).Day?
  }

  /** The sort key of a recipe: the day of its parsed `Date` field; an
      Invalid Date is ranked as the epoch. */
  function DateKey(r: Recipe): int {
    var t := ParseDate(Get(r, "Date"));
    if t.Day? then t.n else 0
  }

  /** `[...recipes].sort((a, b) => parseDate(b.Date) - parseDate(a.Date))`:
      a stable sort of a copy; the input list itself is a value and stays
      as it was.  When every date is a valid time value the copy is newest
      first. */
  function SortNewestFirst(recipes: seq<Recipe>): (r: seq<Recipe>)
    ensures multiset(r) == multiset(recipes)
    ensures (forall x :: x in recipes ==> HasTime(x)) ==> NonIncreasing(r, DateKey)
  {
    SortDescending(recipes, DateKey)
  }

  /** Recipes with the same date keep their input order. */
  lemma SortNewestFirstStable(recipes: seq<Recipe>, day: int)
    requires forall x :: x in recipes ==> HasTime(x)
    ensures Filter(SortNewestFirst(recipes), KeyIs(DateKey, day)) == Filter(recipes, KeyIs(DateKey, day))
  {
    SortKeepsTies(recipes, DateKey, day);
  }

  /** A list that is already newest first is left as it is. */
  lemma SortNewestFirstOfSorted(recipes: seq<Recipe>)
    requires forall x :: x in recipes ==> HasTime(x)
    requires NonIncreasing(recipes, DateKey)
    ensures SortNewestFirst(recipes) == recipes
  {
    SortOfSorted(recipes, DateKey);
  }

  // ---------------------------------------------------------------------
  // Category links

  predicate MatchesName(c: Category, categoryName: Option<string>) {
    Some(c.name) == categoryName || c.en == categoryName
  }

  /** `table.find(cat => cat.name === categoryName || cat.en === categoryName)`
      as the index of the entry found. */
  function FindCategory(table: seq<Category>, categoryName: Option<string>): (i: Option<nat>)
    ensures i.Some? ==> i.value < |table| && MatchesName(table[i.value], categoryName)
    ensures i.Some? ==> forall j :: 0 <= j < i.value ==> !MatchesName(table[j], categoryName)
    ensures i.None? ==> forall j :: 0 <= j < |table| ==> !MatchesName(table[j], categoryName)
  {
    if table == [] then None
    else if MatchesName(table[0], categoryName) then Some(0)
    else
      var rest := FindCategory(table[1..], categoryName);
      if rest.None? then None else Some(rest.value + 1)
  }

  /** `getCategoryPath(categoryName)`: the path of the first matching entry
      of the table for `language`, else "/".  `None` means the lookup throws
      because there is no table for `language`. */
  function CategoryPath(language: string, categoryName: Option<string>): (path: Option<string>)
    ensures path.Some? <==> language == "GR" || language == "EN"
  {
    match Table(language)
    case None => None
    case Some(table) =>
      match FindCategory(table, categoryName)
      case Some(i) => Some(table[i].path)
      case None => Some("/")
  }

  /** A name matches a Greek entry only as that entry's own Greek name or its
      English name. */
  lemma GreekMatches(i: nat, name: string)
    requires i < 8
    ensures MatchesName(GR[i], Some(name)) <==> name == GR[i].name || name == EN[i].name
  {
    TablesAligned();
  }

  /** Each category name finds its own path in its own language. */
  lemma OwnNameFindsOwnPath(i: nat)
    requires i < 8
    ensures CategoryPath("GR", Some(GR[i].name)) == Some(GR[i].path)
    ensures CategoryPath("EN", Some(EN[i].name)) == Some(EN[i].path)
  {
    GreekEntriesDistinct();
    EnglishEntriesDistinct();
    NamesDisjoint();
    TablesAligned();
    var g := FindCategory(GR, Some(GR[i].name));
    assert MatchesName(GR[i], Some(GR[i].name));
    assert g.Some? && g.value <= i;
    assert g.value == i;
    var e := FindCategory(EN, Some(EN[i].name));
    assert MatchesName(EN[i], Some(EN[i].name));
    assert e.Some? && e.value <= i;
    assert e.value == i;
  }

  /** In Greek, an English category name finds the Greek page of the same
      category, through the `en` field. */
  lemma EnglishNameFindsGreekPath(i: nat)
    requires i < 8
    ensures CategoryPath("GR", Some(EN[i].name)) == Some(GR[i].path)
  {
    GreekEntriesDistinct();
    EnglishEntriesDistinct();
    NamesDisjoint();
    TablesAligned();
    var g := FindCategory(GR, Some(EN[i].name));
    assert MatchesName(GR[i], Some(EN[i].name));
    assert g.Some? && g.value <= i;
    assert g.value == i;
  }

  /** In English, a Greek name is unknown and falls back to "/": English
      entries have no `en` field and their `gr` field is not consulted. */
  lemma GreekNameInEnglishFallsBack(i: nat)
    requires i < 8
    ensures CategoryPath("EN", Some(GR[i].name)) == Some("/")
  {
    NamesDisjoint();
    TablesAligned();
  }

  /** A name that no entry carries falls back to "/". */
  lemma UnknownNameFallsBack(language: string, name: string)
    requires language == "GR" || language == "EN"
    requires forall i :: 0 <= i < 8 ==> name != GR[i].name && name != EN[i].name
    ensures CategoryPath(language, Some(name)) == Some("/")
  {
    TablesAligned();
  }

  /** A missing category name: in English it equals the absent `en` field of
      the first entry, so the link goes to "/starters"; in Greek every entry
      has an `en` field, so it falls back to "/". */
  lemma MissingNameLookup()
    ensures CategoryPath("EN", None) == Some("/starters")
    ensures CategoryPath("GR", None) == Some("/")
  {
    TablesAligned();
  }

  /** The category label: `name.toLowerCase().replace(/^\w/, c => c.toUpperCase())`. */
  function Label(name: string): (text: string)
    ensures |text| == |name|
    ensures forall k :: 0 < k < |name| ==> text[k] == LowerChar(name[k])
    ensures name != [] ==> text[0] == (if IsWordChar(LowerChar(name[0])) then UpperChar(LowerChar(name[0])) else LowerChar(name[0]))
  {
    var lower := Lower(name);
    if lower != [] && IsWordChar(lower[0]) then [UpperChar(lower[0])] + lower[1..] else lower
  }

  /** A name that starts with an ASCII capital keeps it and has the rest
      lower-cased ("Breads & Dough" reads "Breads & dough"). */
  lemma LabelOfEnglishName(name: string)
    requires name != [] && IsUpperAscii(name[0])
    ensures Label(name) == [name[0]] + Lower(name[1..])
  {
    var text := Label(name);
    assert text[0] == name[0];
    assert forall k :: 0 < k < |name| ==> text[k] == Lower(name[1..])[k - 1];
  }

  /** A name that starts with a Greek capital comes out entirely in lower
      case, since `\w` matches no Greek letter ("Μεζέδες" reads "μεζέδες"). */
  lemma LabelOfGreekName(name: string)
    requires name != [] && IsUpperGreek(name[0])
    ensures Label(name) == Lower(name)
    ensures !IsUpperGreek(Label(name)[0]) && Label(name)[0] != name[0]
  {
  }

  // ---------------------------------------------------------------------
  // Title links

  /** The grid's slug: `TitleEN.toLowerCase().replace(/ /g, "-")`. */
  function GridSlug(title: string): (slug: string)
    ensures |slug| == |title|
    ensures forall k :: 0 <= k < |title| ==> slug[k] == (if title[k] == ' ' then '-' else LowerChar(title[k]))
  {
    ReplaceChar(Lower(title), ' ', '-')
  }

  // ---------------------------------------------------------------------
  // Rendering

  datatype CategoryLink = CategoryLink(href: string, caption: string)

  /** What one grid cell shows.  `categoryLink` is absent on category pages;
      absent texts render as nothing. */
  datatype GridCard = GridCard(
    categoryLink: Option<CategoryLink>,
    image: string,
    alt: Option<string>,
    href: string,
    title: Option<string>,
    description: Option<string>)

  /** One grid cell, or `None` where rendering throws: the category of the
      chosen language is missing (`.toLowerCase()` of `undefined`) or there
      is no table for the language, or `TitleEN` is missing. */
  function RenderCard(r: Recipe, language: string, isCategoryPage: bool): (card: Option<GridCard>)
    ensures card.Some? <==>
      "TitleEN" in r
      && (!isCategoryPage ==> (language == "GR" || language == "EN") && Pick(r, "Category", language).Some?)
    ensures card.Some? ==> (card.value.categoryLink.Some? <==> !isCategoryPage)
    ensures card.Some? ==> card.value.href == "/recipes/" + GridSlug(r["TitleEN"])
    ensures card.Some? ==> card.value.image == ImageLink(Get(r, "LinkYT"))
    ensures card.Some? && !isCategoryPage ==>
      card.value.categoryLink == Some(CategoryLink(
        CategoryPath(language, Pick(r, "Category", language)).value,
        Label(Pick(r, "Category", language).value)))
  {
    var category := Pick(r, "Category", language);
    var link :=
      if isCategoryPage then Some(None)
      else match CategoryPath(language, category)
        case None => None
        case Some(path) => if category.None? then None else Some(Some(CategoryLink(path, Label(category.value))));
    if link.None? || "TitleEN" !in r then None
    else Some(GridCard(
      link.value,
      ImageLink(Get(r, "LinkYT")),
      Pick(r, "Title", language),
      "/recipes/" + GridSlug(r["TitleEN"]),
      Pick(r, "Title", language),
      Pick(r, "ShortDescription", language)))
  }

  datatype GridView = GridView(cards: seq<GridCard>, showMore: Option<string>)

  /** Renders every record, or `None` as soon as one of them throws. */
  function RenderCards(rs: seq<Recipe>, language: string, isCategoryPage: bool): Option<seq<GridCard>> {
    MapAll(rs, r => RenderCard(r, language, isCategoryPage))
  }

  /** `recipes.slice(0, n)` */
  function Window<T>(s: seq<T>, n: nat): (w: seq<T>)
    ensures |w| == (if n < |s| then n else |s|)
    ensures w == s[..|w|]
  {
    if n < |s| then s[..n] else s
  }

  /** The grid component with its `visibleRecipes` state; the props are
      fixed for its lifetime. */
  class RecipeGridState {
    const recipes: seq<Recipe>
    const language: string
    const isCategoryPage: bool
    var visibleRecipes: nat
    ghost var loads: nat

    /** The counter has grown by 12 for each "show more" click. */
    ghost predicate Valid()
      reads this
    {
      visibleRecipes == 12 * (loads + 1)
    }

    constructor (recipes: seq<Recipe>, language: string, isCategoryPage: bool)
      ensures this.recipes == recipes && this.language == language && this.isCategoryPage == isCategoryPage
      ensures visibleRecipes == 12 && loads == 0 && Valid()
    {
      this.recipes := recipes;
      this.language := language;
      this.isCategoryPage := isCategoryPage;
      visibleRecipes := 12;
      loads := 0;
    }

    /** The recipes on screen: the first `visibleRecipes` of the sorted
        list. */
    function Shown(): (shown: seq<Recipe>)
      reads this
      ensures |shown| == (if visibleRecipes < |recipes| then visibleRecipes else |recipes|)
      ensures shown == SortNewestFirst(recipes)[..|shown|]
    {
      var sorted := SortNewestFirst(recipes);
      assert |sorted| == |multiset(sorted)| == |recipes|;
      Window(sorted, visibleRecipes)
    }

    /** The "show more" button appears while recipes remain hidden. */
    predicate ShowMore()
      reads this
      ensures ShowMore() <==> |Shown()| < |recipes|
    {
      visibleRecipes < |recipes|
    }

    /** The rendered grid, or `None` where rendering throws. */
    function View(): (view: Option<GridView>)
      reads this
      ensures view.Some? <==> RenderCards(Shown(), language, isCategoryPage).Some?
      ensures view.Some? ==> (view.value.showMore.Some? <==> ShowMore())
    {
      match RenderCards(Shown(), language, isCategoryPage)
      case None => None
      case Some(cards) =>
        Some(GridView(cards,
          if ShowMore() then Some(if language == "EN" then "Show More" else "Δείτε Περισσότερα") else None))
    }

    /** `loadMore`: twelve more recipes. */
    method LoadMore()
      requires Valid()
      modifies this
      ensures Valid() && loads == old(loads) + 1
      ensures visibleRecipes == old(visibleRecipes) + 12
      ensures old(Shown()) == Shown()[..|old(Shown())|]
    {
      visibleRecipes := visibleRecipes + 12;
      loads := loads + 1;
    }
  }

  /** After `loads` clicks, `12 * (loads + 1)` recipes are on screen or all
      of them, and the button stays exactly while some are left. */
  lemma PaginationAfterClicks(g: RecipeGridState)
    requires g.Valid()
    ensures |g.Shown()| == (if 12 * (g.loads + 1) < |g.recipes| then 12 * (g.loads + 1) else |g.recipes|)
    ensures g.ShowMore() <==> 12 * (g.loads + 1) < |g.recipes|
  {
  }

  /** A larger window extends a smaller one. */
  lemma WindowGrows<T>(s: seq<T>, m: nat, n: nat)
    requires m <= n
    ensures Window(s, m) == Window(s, n)[..|Window(s, m)|]
  {
  }

  /** On the home page a language without a category table makes every
      non-empty grid throw. */
  lemma UnknownLanguageBreaksHomeGrid(g: RecipeGridState)
    requires !g.isCategoryPage && g.language != "GR" && g.language != "EN"
    requires g.Shown() != []
    ensures g.View().None?
  {
    var render := (r: Recipe) => RenderCard(r, g.language, false);
    assert render(g.Shown()[0]).None?;
  }

  /** On a category page every recipe with an English title renders. */
  lemma CategoryPageRenders(g: RecipeGridState)
    requires g.isCategoryPage
    requires forall r :: r in g.recipes ==> "TitleEN" in r
    ensures g.View().Some?
  {
    var shown := g.Shown();
    var sorted := SortNewestFirst(g.recipes);
    var render := (r: Recipe) => RenderCard(r, g.language, true);
    forall k | 0 <= k < |shown| ensures render(shown[k]).Some? {
      assert shown[k] == sorted[k];
      assert sorted[k] in multiset(g.recipes);
    }
  }
}
