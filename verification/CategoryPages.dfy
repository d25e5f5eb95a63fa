/** The per-category pages: each one redirects between its English and
    Greek path and shows, without category links, the recipes whose
    category in the current language is the page's category. */
module CategoryPages {
  import opened Wrappers
  import opened Records
  import opened Text
  import opened Seqs
  import CategoryMapping
  import opened Routes
  import opened RecipeGrid

  /** A category page: its two paths and the category name it selects in
      English and in every other language. */
  datatype CategoryPage = CategoryPage(route: Synonym, english: string, greek: string)

  const Starters := CategoryPage(Synonym("/starters", "/mezedes"), "Starters", "Μεζέδες")
  const Mains := CategoryPage(Synonym("/mains", "/kyrios"), "Mains", "Κυρίως")
  const BreadsDough := CategoryPage(Synonym("/breads-dough", "/psomia-zymes"), "Breads & Dough", "Ψωμιά & Ζύμες")
  /** The specials page as written: its Greek name has a leading space. */
  const SpecialsAsWritten := CategoryPage(Synonym("/specials", "/meraklidika"), "Specials", " Μερακλίδικα")
  /** The specials page with the table's Greek name. */
  const Specials := CategoryPage(Synonym("/specials", "/meraklidika"), "Specials", "Μερακλίδικα")
  const Festive := CategoryPage(Synonym("/festive", "/eortastika"), "Festive", "Εορταστικά")
  const Nistisima := CategoryPage(Synonym("/vegetarian", "/nistisima"), "Vegetarian", "Νηστίσιμα")
  const Desserts := CategoryPage(Synonym("/desserts", "/glyka"), "Desserts", "Γλυκά")

  /** `language === "EN" ? <english> : <greek>` */
  function SelectedCategory(page: CategoryPage, language: string): (name: string)
    ensures name == Localized(language, page.english, page.greek)
  {
    if language == "EN" then page.english else page.greek
  }

  /** `recipe[`Category${language}`] === selectedCategory`; a missing
      field is `undefined` and never equal. */
  predicate Keeps(page: CategoryPage, language: string, r: Recipe) {
    Get(r, "Category" + language) == Some(SelectedCategory(page, language))
  }

  /** The records the page shows, in fetched order. */
  function Shown(page: CategoryPage, language: string, recipes: seq<Recipe>): (shown: seq<Recipe>)
    ensures IsSubsequence(shown, recipes)
    ensures forall r :: multiset(shown)[r] == if Keeps(page, language, r) then multiset(recipes)[r] else 0
  {
    var keep := r => Keeps(page, language, r);
    FilterIsSelection(recipes, keep);
    Filter(recipes, keep)
  }

  /** The navigation effect of a category page. */
  function Navigation(page: CategoryPage, language: string, pathname: string): (target: Option<string>)
    ensures target.Some? <==>
      (language == "GR" && pathname == page.route.english) || (language == "EN" && pathname == page.route.greek)
    ensures target.Some? ==> target.value == (if language == "GR" then page.route.greek else page.route.english)
  {
    Redirect(page.route, language, pathname)
  }

  /** The pages in use, with specials corrected. */
  const Pages: seq<CategoryPage> := [Starters, Mains, BreadsDough, Specials, Festive, Nistisima, Desserts]

  /** Every page (corrected) agrees with the category table: its paths are
      the table's English and Greek paths and its names the table's names.
      Barbecue, the one remaining table entry, has no page. */
  lemma PagesMatchTable()
    ensures forall p :: p in Pages ==>
      exists i :: 0 <= i < 8 && i != 4 && p.route == Synonym(CategoryMapping.EN[i].path, CategoryMapping.GR[i].path)
        && p.english == CategoryMapping.EN[i].name && p.greek == CategoryMapping.GR[i].name
  {
    assert Starters.route == Synonym(CategoryMapping.EN[0].path, CategoryMapping.GR[0].path);
    assert Mains.route == Synonym(CategoryMapping.EN[1].path, CategoryMapping.GR[1].path);
    assert BreadsDough.route == Synonym(CategoryMapping.EN[2].path, CategoryMapping.GR[2].path);
    assert Specials.route == Synonym(CategoryMapping.EN[3].path, CategoryMapping.GR[3].path);
    assert Festive.route == Synonym(CategoryMapping.EN[5].path, CategoryMapping.GR[5].path);
    assert Nistisima.route == Synonym(CategoryMapping.EN[6].path, CategoryMapping.GR[6].path);
    assert Desserts.route == Synonym(CategoryMapping.EN[7].path, CategoryMapping.GR[7].path);
  }

  /** Every page's redirect settles: the target, asked again, stays. */
  lemma NavigationSettles(page: CategoryPage, language: string, pathname: string)
    requires page in Pages
    requires Navigation(page, language, pathname).Some?
    ensures Navigation(page, language, Navigation(page, language, pathname).value).None?
  {
    RedirectSettles(page.route, language, pathname);
  }

  /** As written, the Greek specials page drops every record filed under
      the table's own Greek name, whatever list it comes in. */
  lemma SpecialsAsWrittenDropsGreek(r: Recipe, recipes: seq<Recipe>)
    requires Get(r, "CategoryGR") == Some(CategoryMapping.GR[3].name)
    ensures !Keeps(SpecialsAsWritten, "GR", r)
    ensures r !in Shown(SpecialsAsWritten, "GR", recipes)
  {
    assert "Category" + "GR" == "CategoryGR";
    assert " Μερακλίδικα"[0] != CategoryMapping.GR[3].name[0];
    assert !Keeps(SpecialsAsWritten, "GR", r);
    assert multiset(Shown(SpecialsAsWritten, "GR", recipes))[r] == 0;
  }

  /** Corrected, the Greek specials page keeps a record exactly when its
      Greek category is the table's name for specials. */
  lemma SpecialsKeepsGreek(r: Recipe)
    ensures Keeps(Specials, "GR", r) <==> Get(r, "CategoryGR") == Some(CategoryMapping.GR[3].name)
  {
    assert "Category" + "GR" == "CategoryGR";
  }

  /** A category page renders its grid with `isCategoryPage`, so no card
      carries a category link. */
  lemma NoCategoryLinks(page: CategoryPage, language: string, recipes: seq<Recipe>)
    requires RenderCards(Shown(page, language, recipes), language, true).Some?
    ensures forall c :: c in RenderCards(Shown(page, language, recipes), language, true).value ==> c.categoryLink.None?
  {
    var shown := Shown(page, language, recipes);
    var cards := RenderCards(shown, language, true).value;
    forall c | c in cards ensures c.categoryLink.None? {
      var k :| 0 <= k < |cards| && cards[k] == c;
      assert RenderCard(shown[k], language, true).Some?;
    }
  }

  /** The vegetarian page: the Greek category, or for every other language
      the English tags containing "Vegetarian" (for a language other than
      English, the tag is `null`, which `includes` reads as "null"). */
  const Vegetarian := Synonym("/vegetarian", "/nistisima")

  /** A text lacking one of the characters of `sub` does not include it. */
  lemma {:induction false} MissingCharExcludes(s: string, sub: string, k: nat)
    requires k < |sub| && sub[k] !in s
    ensures !Contains(s, sub)
  {
    if s != [] {
      MissingCharExcludes(s[1..], sub, k);
    }
  }

  predicate VegetarianKeeps(language: string, r: Recipe) {
    if language == "GR" then Get(r, "CategoryGR") == Some("Νηστίσιμα")
    else
      var tag := if language == "EN" then "Vegetarian" else "null";
      Truthy(Get(r, "TagsEN")) && Contains(r["TagsEN"], tag)
  }

  function VegetarianShown(language: string, recipes: seq<Recipe>): (shown: seq<Recipe>)
    ensures IsSubsequence(shown, recipes)
    ensures forall r :: multiset(shown)[r] == if VegetarianKeeps(language, r) then multiset(recipes)[r] else 0
  {
    var keep := r => VegetarianKeeps(language, r);
    FilterIsSelection(recipes, keep);
    Filter(recipes, keep)
  }

  /** The two pages on the same paths select differently in English: the
      vegetarian page by tag whatever the category, the nistisima page by
      category whatever the tags. */
  lemma VegetarianPagesDiffer()
    ensures var tagged := map["TagsEN" := "Vegetarian"];
      VegetarianKeeps("EN", tagged) && !Keeps(Nistisima, "EN", tagged)
    ensures var filed := map["CategoryEN" := "Vegetarian"];
      !VegetarianKeeps("EN", filed) && Keeps(Nistisima, "EN", filed)
    ensures Nistisima.route == Vegetarian
  {
    assert "Category" + "EN" == "CategoryEN";
    var tagged := map["TagsEN" := "Vegetarian"];
    assert StartsWith(tagged["TagsEN"], "Vegetarian");
    assert Contains(tagged["TagsEN"], "Vegetarian");
  }

  /** For any other language the page looks for the text "null" in the
      English tags: a record tagged "Vegetarian" is dropped, one whose tags
      mention "null" is kept. */
  lemma VegetarianOtherLanguage(language: string)
    requires language != "EN" && language != "GR"
    ensures !VegetarianKeeps(language, map["TagsEN" := "Vegetarian"])
    ensures VegetarianKeeps(language, map["TagsEN" := "null"])
  {
    assert StartsWith("null", "null");
    MissingCharExcludes("Vegetarian", "null", 1);
  }

  /** In Greek the two pages agree. */
  lemma VegetarianPagesAgreeInGreek(r: Recipe)
    ensures VegetarianKeeps("GR", r) <==> Keeps(Nistisima, "GR", r)
  {
    assert "Category" + "GR" == "CategoryGR";
  }

  /** For a language other than "EN" and "GR" the site mixes languages:
      cards pick the English fields while page texts and category names
      fall to the Greek side. */
  lemma ThirdLanguageMixes(r: Recipe, page: CategoryPage, language: string)
    requires language != "EN" && language != "GR"
    ensures Pick(r, "Title", language) == Get(r, "TitleEN")
    ensures SelectedCategory(page, language) == page.greek
  {
    assert "Title" + "EN" == "TitleEN";
  }
}
