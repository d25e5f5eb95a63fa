/** The recipe authoring form: one text area per field of the recipe
    record, and a download that replaces the two Execution texts by their
    ordered-list HTML. */
module RecipeToJson {
  import opened Wrappers
  import opened Records
  import opened Seqs
  import opened ExecutionFormat

  const ExecutionGR := "ExecutionGR"
  const ExecutionEN := "ExecutionEN"

  /** The fields of the form, in the order they are shown (there is no
      English long description). */
  const FieldNames: seq<string> := [
    "CategoryGR", "CategoryEN", "Image", "TitleGR", "TitleEN",
    "ShortDescriptionGR", "ShortDescriptionEN", "IngredientsGR", "IngredientsEN",
    "LongDescriptionGR", "ExecutionGR", "ExecutionEN",
    "LinkYT", "TagsGR", "TagsEN", "Date"]

  /** The form's starting record: every field present and empty. */
  const InitialRecipe: Recipe := map k | k in FieldNames :: ""

  lemma FieldNamesDistinct()
    ensures Distinct(FieldNames)
  {
  }

  /** The starting record has exactly sixteen keys, all empty, and no
      `LongDescriptionEN`. */
  lemma InitialRecipeShape()
    ensures |InitialRecipe| == 16
    ensures forall k :: k in InitialRecipe ==> InitialRecipe[k] == ""
    ensures "LongDescriptionEN" !in InitialRecipe
    ensures ExecutionGR in InitialRecipe && ExecutionEN in InitialRecipe && "TitleEN" in InitialRecipe
  {
    InitialRecipeSize();
    InitialRecipeKeys();
  }

  lemma InitialRecipeSize()
    ensures |InitialRecipe| == 16
  {
    FieldNamesDistinct();
    DistinctCount(FieldNames);
    assert InitialRecipe.Keys == set k | k in FieldNames;
  }

  lemma InitialRecipeKeys()
    ensures "LongDescriptionEN" !in InitialRecipe
    ensures ExecutionGR in InitialRecipe && ExecutionEN in InitialRecipe && "TitleEN" in InitialRecipe
  {
  }

  /** `{ ...recipe, ExecutionGR: formatExecution(recipe.ExecutionGR),
      ExecutionEN: formatExecution(recipe.ExecutionEN) }`; `None` when a
      field is missing, where `undefined.split` would throw. */
  function Formatted(r: Recipe): (f: Option<Recipe>)
    ensures f.Some? <==> ExecutionGR in r && ExecutionEN in r
    ensures f.Some? ==> f.value.Keys == r.Keys
    ensures f.Some? ==> forall k :: k in r && k != ExecutionGR && k != ExecutionEN ==> f.value[k] == r[k]
    ensures f.Some? ==> f.value[ExecutionGR] == FormatExecution(r[ExecutionGR])
    ensures f.Some? ==> f.value[ExecutionEN] == FormatExecution(r[ExecutionEN])
  {
    if ExecutionGR in r && ExecutionEN in r then
      Some(r[ExecutionGR := FormatExecution(r[ExecutionGR])][ExecutionEN := FormatExecution(r[ExecutionEN])])
    else None
  }

  /** `${title || "recipe"}.json`: the title, or "recipe" when it is
      missing or empty. */
  function FileName(title: Option<string>): (name: string)
    ensures |name| > 5 && name[|name| - 5..] == ".json"
    ensures Truthy(title) ==> name[..|name| - 5] == title.value
    ensures !Truthy(title) ==> name == "recipe.json"
  {
    var stem := if Truthy(title) then title.value else "recipe";
    var name := stem + ".json";
    assert name[..|stem|] == stem;
    name
  }

  /** Distinct non-empty titles give distinct file names, but the title
      "recipe" and an empty title share one. */
  lemma FileNames(t1: string, t2: string)
    ensures t1 != "" && t2 != "" && t1 != t2 ==> FileName(Some(t1)) != FileName(Some(t2))
    ensures FileName(Some("recipe")) == FileName(Some(""))
  {
    if t1 != "" && t2 != "" && FileName(Some(t1)) == FileName(Some(t2)) {
      assert t1 == FileName(Some(t1))[..|FileName(Some(t1))| - 5];
    }
  }

  class RecipeForm {
    /** The `recipe` state of the form. */
    var recipe: Recipe

    /** Every field of the starting record is still present. */
    ghost predicate Valid()
      reads this
    {
      forall k :: k in InitialRecipe ==> k in recipe
    }

    constructor()
      ensures recipe == InitialRecipe
      ensures Valid()
    {
      recipe := InitialRecipe;
    }

    /** `setRecipe({ ...recipe, [name]: value })`: only the named field
        changes. */
    method HandleChange(name: string, value: string)
      requires Valid()
      modifies this
      ensures Valid()
      ensures recipe == old(recipe)[name := value]
      ensures name in old(recipe) ==> recipe.Keys == old(recipe).Keys
    {
      recipe := recipe[name := value];
    }

    /** The record written to the download and its file name. */
    method HandleDownload() returns (record: Recipe, fileName: string)
      requires Valid()
      ensures Formatted(recipe) == Some(record)
      ensures record.Keys == recipe.Keys
      ensures fileName == FileName(Get(recipe, "TitleEN"))
    {
      record := Formatted(recipe).value;
      fileName := FileName(Get(record, "TitleEN"));
    }
  }
}
