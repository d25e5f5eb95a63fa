/** The second authoring page: sixteen separate inputs (two of them
    category selects over local copies of the category table) and a
    generated record with formatted Execution fields. */
module TestPage {
  import opened Wrappers
  import opened Records
  import opened Seqs
  import opened CategoryMapping
  import opened ExecutionFormat

  /** The page's own copies of the category lists. */
  const CategoriesGR: seq<Category> := [
    Category("Μεζέδες", "/mezedes", Some("Starters"), None),
    Category("Κυρίως", "/kyrios", Some("Mains"), None),
    Category("Ψωμιά & Ζύμες", "/psomia-zymes", Some("Breads & Dough"), None),
    Category("Μερακλίδικα", "/meraklidika", Some("Specials"), None),
    Category("Μπάρμπεκιου", "/barbekiou", Some("Barbecue"), None),
    Category("Εορταστικά", "/eortastika", Some("Festive"), None),
    Category("Νηστίσιμα", "/nistisima", Some("Vegetarian"), None),
    Category("Γλυκά", "/glyka", Some("Desserts"), None)
  ]

  const CategoriesEN: seq<Category> := [
    Category("Starters", "/starters", None, Some("Μεζέδες")),
    Category("Mains", "/mains", None, Some("Κυρίως")),
    Category("Breads & Dough", "/breads-dough", None, Some("Ψωμιά & Ζύμες")),
    Category("Specials", "/specials", None, Some("Μερακλίδικα")),
    Category("Barbecue", "/barbecue", None, Some("Μπάρμπεκιου")),
    Category("Festive", "/festive", None, Some("Εορταστικά")),
    Category("Vegetarian", "/vegetarian", None, Some("Νηστίσιμα")),
    Category("Desserts", "/desserts", None, Some("Γλυκά"))
  ]

  /** The local lists are the shared category table, entry by entry. */
  lemma LocalTablesMatch()
    ensures CategoriesGR == CategoryMapping.GR
    ensures CategoriesEN == CategoryMapping.EN
  {
  }

  /** The values a category select offers: the empty placeholder, then
      every name of the list in order. */
  function Options(t: seq<Category>): (o: seq<string>)
    ensures |o| == |t| + 1 && o[0] == ""
    ensures forall i :: 0 <= i < |t| ==> o[i + 1] == t[i].name
  {
    [""] + seq(|t|, i requires 0 <= i < |t| => t[i].name)
  }

  /** Whatever a select yields is the placeholder or a name of its list. */
  lemma OptionValues(v: string, t: seq<Category>)
    requires v in Options(t)
    ensures v == "" || exists i :: 0 <= i < |t| && t[i].name == v
  {
    var o := Options(t);
    var k :| 0 <= k < |o| && o[k] == v;
    if k > 0 {
      assert t[k - 1].name == v;
    }
  }

  /** The values of the Greek and the English category select. */
  const OptionsGR: seq<string> := ["", "Μεζέδες", "Κυρίως", "Ψωμιά & Ζύμες", "Μερακλίδικα",
                                   "Μπάρμπεκιου", "Εορταστικά", "Νηστίσιμα", "Γλυκά"]
  const OptionsEN: seq<string> := ["", "Starters", "Mains", "Breads & Dough", "Specials",
                                   "Barbecue", "Festive", "Vegetarian", "Desserts"]

  /** The selects list exactly the placeholder and the names of the local
      tables. */
  lemma OptionsListed()
    ensures OptionsGR == Options(CategoriesGR)
    ensures OptionsEN == Options(CategoriesEN)
  {
  }

  /** The keys of the generated record, one per state variable. */
  const RecordKeys: seq<string> := [
    "CategoryGR", "CategoryEN", "TitleGR", "TitleEN",
    "ShortDescriptionGR", "ShortDescriptionEN", "IngredientsGR", "IngredientsEN",
    "LongDescriptionGR", "LongDescriptionEN", "ExecutionGR", "ExecutionEN",
    "TagsGR", "TagsEN", "LinkYT", "Date"]

  const StateKeys: set<string> := set k | k in RecordKeys

  lemma RecordKeysDistinct()
    ensures Distinct(RecordKeys)
  {
  }

  /** Sixteen state variables, among them an English long description but
      no image. */
  lemma StateKeysShape()
    ensures |StateKeys| == 16
    ensures "Image" !in StateKeys && "LongDescriptionEN" in StateKeys
  {
    RecordKeysDistinct();
    DistinctCount(RecordKeys);
  }

  /** `${titleEN || "recipe"}.json` */
  function FileName(titleEN: string): (name: string)
    ensures titleEN != "" ==> name == titleEN + ".json"
    ensures titleEN == "" ==> name == "recipe.json"
  {
    (if titleEN != "" then titleEN else "recipe") + ".json"
  }

  class RecipeCreator {
    /** The sixteen `useState` values, under the record key each one is
        written to. */
    var state: map<string, string>

    /** The state holds exactly the sixteen variables, and each category
        one of its select's values. */
    ghost predicate Valid()
      reads this
    {
      state.Keys == StateKeys &&
      "CategoryGR" in state && "CategoryEN" in state &&
      "ExecutionGR" in state && "ExecutionEN" in state &&
      state["CategoryGR"] in OptionsGR &&
      state["CategoryEN"] in OptionsEN
    }

    /** Every state variable starts empty. */
    constructor()
      ensures state == map k | k in RecordKeys :: ""
      ensures Valid()
    {
      state := map k | k in RecordKeys :: "";
    }

    /** One setter (`setTitleGR`, `setCategoryEN`, ...).  A category can
        only be set to a value its select offers. */
    method Set(key: string, value: string)
      requires Valid()
      requires key in state
      requires key == "CategoryGR" ==> value in OptionsGR
      requires key == "CategoryEN" ==> value in OptionsEN
      modifies this
      ensures Valid()
      ensures state == old(state)[key := value]
      ensures state.Keys == old(state).Keys
    {
      state := state[key := value];
    }

    /** Each category in the state is unset or a name from its list. */
    lemma CategoriesChosen()
      requires Valid()
      ensures state["CategoryGR"] == "" || exists i :: 0 <= i < |CategoryMapping.GR| && CategoryMapping.GR[i].name == state["CategoryGR"]
      ensures state["CategoryEN"] == "" || exists i :: 0 <= i < |CategoryMapping.EN| && CategoryMapping.EN[i].name == state["CategoryEN"]
    {
      LocalTablesMatch();
      OptionsListed();
      OptionValues(state["CategoryGR"], CategoriesGR);
      OptionValues(state["CategoryEN"], CategoriesEN);
    }

    /** `recipeData`: every state value under its key, the two Execution
        texts formatted. */
    function GenerateJson(): (record: Recipe)
      reads this
      requires "ExecutionGR" in state && "ExecutionEN" in state
      ensures record.Keys == state.Keys
      ensures forall k :: k in state && k != "ExecutionGR" && k != "ExecutionEN" ==> record[k] == state[k]
      ensures record["ExecutionGR"] == FormatExecution(state["ExecutionGR"])
      ensures record["ExecutionEN"] == FormatExecution(state["ExecutionEN"])
    {
      state["ExecutionGR" := FormatExecution(state["ExecutionGR"])]["ExecutionEN" := FormatExecution(state["ExecutionEN"])]
    }

    /** The generated record has exactly sixteen keys, with an English
        long description and no `Image`. */
    lemma RecordShape()
      requires Valid()
      ensures |GenerateJson()| == 16
      ensures "Image" !in GenerateJson() && "LongDescriptionEN" in GenerateJson()
    {
      StateKeysShape();
    }
  }
}
