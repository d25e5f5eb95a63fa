/** The bilingual category table: eight categories, listed once with Greek
    names and once with English names, in the same order.  Each Greek entry
    carries the English name (`en`), each English entry the Greek name
    (`gr`); the other field is absent. */
module CategoryMapping {
  import opened Wrappers

  datatype Category = Category(name: string, path: string, en: Option<string>, gr: Option<string>)

  const GR: seq<Category> := [
    Category("Μεζέδες", "/mezedes", Some("Starters"), None),
    Category("Κυρίως", "/kyrios", Some("Mains"), None),
    Category("Ψωμιά & Ζύμες", "/psomia-zymes", Some("Breads & Dough"), None),
    Category("Μερακλίδικα", "/meraklidika", Some("Specials"), None),
    Category("Μπάρμπεκιου", "/barbekiou", Some("Barbecue"), None),
    Category("Εορταστικά", "/eortastika", Some("Festive"), None),
    Category("Νηστίσιμα", "/nistisima", Some("Vegetarian"), None),
    Category("Γλυκά", "/glyka", Some("Desserts"), None)
  ]

  const EN: seq<Category> := [
    Category("Starters", "/starters", None, Some("Μεζέδες")),
    Category("Mains", "/mains", None, Some("Κυρίως")),
    Category("Breads & Dough", "/breads-dough", None, Some("Ψωμιά & Ζύμες")),
    Category("Specials", "/specials", None, Some("Μερακλίδικα")),
    Category("Barbecue", "/barbecue", None, Some("Μπάρμπεκιου")),
    Category("Festive", "/festive", None, Some("Εορταστικά")),
    Category("Vegetarian", "/vegetarian", None, Some("Νηστίσιμα")),
    Category("Desserts", "/desserts", None, Some("Γλυκά"))
  ]

  /** `categoryMapping[language]`: only "GR" and "EN" have a table. */
  function Table(language: string): (t: Option<seq<Category>>)
    ensures t.Some? <==> language == "GR" || language == "EN"
    ensures language == "GR" ==> t == Some(GR)
    ensures language == "EN" ==> t == Some(EN)
  {
    if language == "GR" then Some(GR)
    else if language == "EN" then Some(EN)
    else None
  }

  predicate UniqueNames(t: seq<Category>) {
    forall i, j :: 0 <= i < j < |t| ==> t[i].name != t[j].name
  }

  predicate UniquePaths(t: seq<Category>) {
    forall i, j :: 0 <= i < j < |t| ==> t[i].path != t[j].path
  }

  /** Both lists have eight entries. */
  lemma TableSizes()
    ensures |GR| == 8 && |EN| == 8
  {
  }

  /** Within the Greek list, names and paths are distinct. */
  lemma GreekEntriesDistinct()
    ensures UniqueNames(GR) && UniquePaths(GR)
  {
    GreekNamesDistinct();
    GreekPathsDistinct();
  }

  lemma GreekNamesDistinct()
    ensures UniqueNames(GR)
  {
    forall i, j | 0 <= i < j < |GR| ensures GR[i].name != GR[j].name {
      assert GR[i].name[0] != GR[j].name[0] || GR[i].name[2] != GR[j].name[2];
    }
  }

  lemma GreekPathsDistinct()
    ensures UniquePaths(GR)
  {
    forall i, j | 0 <= i < j < |GR| ensures GR[i].path != GR[j].path {
      assert GR[i].path[1] != GR[j].path[1] || GR[i].path[3] != GR[j].path[3];
    }
  }

  /** Within the English list, names and paths are distinct. */
  lemma EnglishEntriesDistinct()
    ensures UniqueNames(EN) && UniquePaths(EN)
  {
    EnglishNamesDistinct();
    EnglishPathsDistinct();
  }

  lemma EnglishNamesDistinct()
    ensures UniqueNames(EN)
  {
    forall i, j | 0 <= i < j < |EN| ensures EN[i].name != EN[j].name {
      assert EN[i].name[0] != EN[j].name[0] || EN[i].name[1] != EN[j].name[1];
    }
  }

  lemma EnglishPathsDistinct()
    ensures UniquePaths(EN)
  {
    forall i, j | 0 <= i < j < |EN| ensures EN[i].path != EN[j].path {
      assert EN[i].path[1] != EN[j].path[1] || EN[i].path[2] != EN[j].path[2];
    }
  }

  /** Every path is absolute, and no path serves both languages. */
  lemma PathsDisjoint()
    ensures forall i :: 0 <= i < |GR| ==> |GR[i].path| > 1 && GR[i].path[0] == '/'
    ensures forall i :: 0 <= i < |EN| ==> |EN[i].path| > 1 && EN[i].path[0] == '/'
    ensures forall i, j :: 0 <= i < |GR| && 0 <= j < |EN| ==> GR[i].path != EN[j].path
  {
  }

  /** Entry `i` of both lists is the same category: each names the other's
      name, and the field for its own language is absent. */
  lemma TablesAligned()
    ensures forall i :: 0 <= i < 8 ==> GR[i].en == Some(EN[i].name) && EN[i].gr == Some(GR[i].name)
    ensures forall i :: 0 <= i < 8 ==> GR[i].gr == None && EN[i].en == None
  {
  }

  /** No English name is also a Greek name. */
  lemma NamesDisjoint()
    ensures forall i, j :: 0 <= i < 8 && 0 <= j < 8 ==> GR[i].name != EN[j].name
  {
  }
}
