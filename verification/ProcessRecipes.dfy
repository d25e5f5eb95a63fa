/** The batch script that rewrites every recipe's `ExecutionGR` and
    `ExecutionEN` HTML into a list of step strings, in place. */
module ProcessRecipes {
  import opened Wrappers
  import opened Text
  import opened HtmlToSteps

  /** The decoded JSON values the script can meet in a recipe. */
  datatype Json = JString(s: string) | JArray(items: seq<Json>) | JOther

  /** A recipe as a Python dict decoded from JSON. */
  type JsonObject = map<string, Json>

  const ExecutionGR := "ExecutionGR"
  const ExecutionEN := "ExecutionEN"

  /** A list of Python strings as a JSON array. */
  function Strings(xs: seq<string>): (a: seq<Json>)
    ensures |a| == |xs|
    ensures forall k :: 0 <= k < |a| ==> a[k] == JString(xs[k])
  {
    if xs == [] then [] else [JString(xs[0])] + Strings(xs[1..])
  }

  /** A value the script writes back: an array of stripped, non-empty,
      single-line strings. */
  predicate CleanSteps(v: Json) {
    v.JArray? &&
    forall k :: 0 <= k < |v.items| ==>
      v.items[k].JString? && v.items[k].s != "" &&
      PyStrip(v.items[k].s) == v.items[k].s && '\n' !in v.items[k].s
  }

  /** `if key in recipe: recipe[key] = convert_html_to_json(recipe[key])`.
      `re.sub` on anything but a string raises, which is `None` here. */
  function ConvertField(r: JsonObject, key: string): (res: Option<JsonObject>)
    ensures res.None? <==> key in r && !r[key].JString?
    ensures res.Some? ==> res.value.Keys == r.Keys
    ensures res.Some? ==> forall k :: k in r && k != key ==> res.value[k] == r[k]
    ensures res.Some? && key in r ==> CleanSteps(res.value[key])
    ensures res.Some? && key !in r ==> res.value == r
  {
    if key !in r then Some(r)
    else match r[key]
      case JString(html) => Some(r[key := JArray(Strings(ConvertHtmlToJson(html)))])
      case _ => None
  }

  /** One pass of the loop body: Greek field first, then English. */
  function ProcessRecipe(r: JsonObject): (res: Option<JsonObject>)
    ensures res.Some? <==>
      (ExecutionGR in r ==> r[ExecutionGR].JString?) &&
      (ExecutionEN in r ==> r[ExecutionEN].JString?)
    ensures res.Some? ==> res.value.Keys == r.Keys
    ensures res.Some? ==> forall k :: k in r && k != ExecutionGR && k != ExecutionEN ==> res.value[k] == r[k]
    ensures res.Some? ==> forall k :: k in r && (k == ExecutionGR || k == ExecutionEN) ==> CleanSteps(res.value[k])
  {
    match ConvertField(r, ExecutionGR)
    case None => None
    case Some(r1) => ConvertField(r1, ExecutionEN)
  }

  /** The recipe as the exception leaves it: the Greek field is converted
      when only the English one fails. */
  function AfterFailure(r: JsonObject): JsonObject {
    match ConvertField(r, ExecutionGR)
    case None => r
    case Some(r1) => r1
  }

  /** `after` is what one pass of the loop body makes of `before`. */
  predicate Processed(before: JsonObject, after: JsonObject) {
    ProcessRecipe(before) == Some(after)
  }

  /** The loop body raises on `before` and leaves `after` behind. */
  predicate Failed(before: JsonObject, after: JsonObject) {
    ProcessRecipe(before).None? && after == AfterFailure(before)
  }

  /** The two conversions of the loop body, one after the other. */
  lemma BothConverted(r: JsonObject, r1: JsonObject, r2: JsonObject)
    requires ConvertField(r, ExecutionGR) == Some(r1) && ConvertField(r1, ExecutionEN) == Some(r2)
    ensures Processed(r, r2)
  {
  }

  lemma GreekFails(r: JsonObject)
    requires ConvertField(r, ExecutionGR).None?
    ensures Failed(r, r)
  {
  }

  lemma EnglishFails(r: JsonObject, r1: JsonObject)
    requires ConvertField(r, ExecutionGR) == Some(r1) && ConvertField(r1, ExecutionEN).None?
    ensures Failed(r, r1)
  {
  }

  /** The loop body on `recipes[i]`: the Greek field is converted and
      stored, then the English one; `ok` is false where Python raises. */
  method ProcessAt(recipes: array<JsonObject>, i: nat) returns (ok: bool)
    requires i < recipes.Length
    modifies recipes
    ensures ok ==> Processed(old(recipes[i]), recipes[i])
    ensures !ok ==> Failed(old(recipes[i]), recipes[i])
    ensures forall j :: 0 <= j < recipes.Length && j != i ==> recipes[j] == old(recipes[j])
  {
    var r := recipes[i];
    var greek := ConvertField(r, ExecutionGR);
    if greek.None? {
      GreekFails(r);
      return false;
    }
    recipes[i] := greek.value;
    var english := ConvertField(greek.value, ExecutionEN);
    if english.None? {
      EnglishFails(r, greek.value);
      return false;
    }
    recipes[i] := english.value;
    BothConverted(r, greek.value, english.value);
    ok := true;
  }

  /** `for recipe in recipes: ...` over the decoded list.  The loop stops
      at the first recipe whose Execution field is not a string (Python
      raises there); `completed` says whether it got through. */
  method ProcessAll(recipes: array<JsonObject>) returns (completed: bool, processed: nat)
    modifies recipes
    ensures processed <= recipes.Length
    ensures completed <==> processed == recipes.Length
    ensures forall i :: 0 <= i < processed ==> Processed(old(recipes[i]), recipes[i])
    ensures !completed ==> Failed(old(recipes[processed]), recipes[processed])
    ensures forall i :: processed < i < recipes.Length ==> recipes[i] == old(recipes[i])
  {
    ghost var original := recipes[..];
    processed := 0;
    while processed < recipes.Length
      invariant processed <= recipes.Length
      invariant forall i :: 0 <= i < processed ==> Processed(original[i], recipes[i])
      invariant forall i :: processed <= i < recipes.Length ==> recipes[i] == original[i]
    {
      var ok := ProcessAt(recipes, processed);
      if !ok {
        return false, processed;
      }
      processed := processed + 1;
    }
    completed := true;
  }

  /** Running the script a second time over its own output fails on the
      first recipe that has an Execution field: it is an array by then. */
  lemma SecondRunFails(r: JsonObject)
    requires ProcessRecipe(r).Some?
    requires ExecutionGR in r || ExecutionEN in r
    ensures ProcessRecipe(ProcessRecipe(r).value).None?
  {
    var r1 := ProcessRecipe(r).value;
    if ExecutionGR in r {
      assert CleanSteps(r1[ExecutionGR]);
    } else {
      assert CleanSteps(r1[ExecutionEN]);
    }
  }
}
