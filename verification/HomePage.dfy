/** The home page: it loads the recipe list once, shows one of four
    panels (spinner, error, grid, empty message) and hands the grid a copy
    of every recipe with the current language's fields under plain
    names. */
module HomePage {
  import opened Wrappers
  import opened Records
  import opened Seqs
  import opened JsNumber

  /** The fields the home page localizes, each read from `<field><language>`. */
  const LocalizedFields: seq<string> :=
    ["Category", "Title", "ShortDescription", "Ingredients", "LongDescription", "Execution", "Tags"]

  /** `recipe[key] = value` where `value` may be `undefined`; a field set
      to `undefined` reads like a missing one, so it is dropped. */
  function SetField(r: Recipe, key: string, value: Option<string>): (s: Recipe)
    ensures Get(s, key) == value
    ensures forall k :: k != key ==> Get(s, k) == Get(r, k)
  {
    match value
    case Some(v) => r[key := v]
    case None => r - {key}
  }

  /** Copies `<field><language>` of `source` to `<field>` for each field,
      in order, over `base`. */
  function Project(base: Recipe, source: Recipe, fields: seq<string>, language: string): (r: Recipe)
    ensures forall k :: k !in fields ==> Get(r, k) == Get(base, k)
    ensures forall k :: k in fields ==> Get(r, k) == Get(source, k + language)
    decreases |fields|
  {
    if fields == [] then base
    else Project(SetField(base, fields[0], Get(source, fields[0] + language)), source, fields[1..], language)
  }

  /** `{ ...recipe, Category: recipe[`Category${language}`], ... }` */
  function Localize(r: Recipe, language: string): (l: Recipe)
    ensures forall k :: k !in LocalizedFields ==> Get(l, k) == Get(r, k)
    ensures forall k :: k in LocalizedFields ==> Get(l, k) == Get(r, k + language)
  {
    Project(r, r, LocalizedFields, language)
  }

  /** `recipes.map(...)`: same length, same order, each element localized. */
  function LocalizeAll(recipes: seq<Recipe>, language: string): (view: seq<Recipe>)
    ensures |view| == |recipes|
    ensures forall i :: 0 <= i < |recipes| ==> view[i] == Localize(recipes[i], language)
  {
    MapEach(recipes, r => Localize(r, language))
  }

  /** For "EN" and "GR" the spread keeps every language-specific source
      field: none of them is one of the plain names being written. */
  lemma LocalizeKeepsSources(r: Recipe, language: string)
    requires language == "EN" || language == "GR"
    ensures forall f :: f in LocalizedFields ==> Get(Localize(r, language), f + language) == Get(r, f + language)
  {
    forall f | f in LocalizedFields
      ensures Get(Localize(r, language), f + language) == Get(r, f + language)
    {
      SourceNameNotLocalized(f, language);
    }
  }

  /** A plain name ends in a lower-case letter. */
  predicate EndsLower(name: string) {
    name != [] && 'a' <= name[|name| - 1] <= 'z'
  }

  /** `<field>EN` and `<field>GR` end in an upper-case letter, so neither is
      a plain name. */
  lemma SourceNameNotLocalized(f: string, language: string)
    requires language == "EN" || language == "GR"
    ensures f + language !in LocalizedFields
  {
    var w := f + language;
    assert w[|w| - 1] == language[1];
    assert !EndsLower(w);
    assert forall g :: g in LocalizedFields ==> EndsLower(g);
  }

  /** What the fetch chain produced. */
  datatype Outcome =
    | Rejected(message: string)   // the request or the JSON decoding failed
    | NotOk(status: nat)          // the server answered with an error status
    | Decoded(recipes: seq<Recipe>) // the payload is an array
    | NotArray                    // the payload is anything else

  /** The error message the chain records for a failed outcome. */
  function ErrorMessage(outcome: Outcome): (message: Option<string>)
    ensures message.None? <==> outcome.Decoded?
    ensures outcome.NotOk? ==> message == Some("HTTP error! status: " + DecimalString(outcome.status))
    ensures outcome.NotArray? ==> message == Some("Invalid recipe data format")
    ensures outcome.Rejected? ==> message == Some(outcome.message)
  {
    match outcome
    case Rejected(m) => Some(m)
    case NotOk(status) => Some("HTTP error! status: " + DecimalString(status))
    case Decoded(_) => None
    case NotArray => Some("Invalid recipe data format")
  }

  datatype Panel = Spinner | ErrorPanel | Grid | EmptyMessage

  /** The panels whose guards hold; each block of the page is guarded on
      its own. */
  function Panels(isLoading: bool, error: Option<string>, count: nat): (shown: set<Panel>)
    ensures Spinner in shown <==> isLoading
    ensures ErrorPanel in shown <==> Truthy(error) && !isLoading
    ensures Grid in shown <==> !isLoading && !Truthy(error) && count > 0
    ensures EmptyMessage in shown <==> !isLoading && !Truthy(error) && count == 0
  {
    (if isLoading then {Spinner} else {}) +
    (if Truthy(error) && !isLoading then {ErrorPanel} else {}) +
    (if !isLoading && !Truthy(error) then (if count > 0 then {Grid} else {EmptyMessage}) else {})
  }

  /** The guards are exclusive and exhaustive: exactly one panel shows. */
  lemma ExactlyOnePanel(isLoading: bool, error: Option<string>, count: nat)
    ensures |Panels(isLoading, error, count)| == 1
  {
    var shown := Panels(isLoading, error, count);
    if isLoading {
      assert shown == {Spinner};
    } else if Truthy(error) {
      assert shown == {ErrorPanel};
    } else if count > 0 {
      assert shown == {Grid};
    } else {
      assert shown == {EmptyMessage};
    }
  }

  /** The home page's load state. */
  class Home {
    var recipes: seq<Recipe>
    var isLoading: bool
    var error: Option<string>

    /** `useState([])`, `useState(true)`, `useState(null)` */
    constructor()
      ensures recipes == [] && isLoading && error.None?
    {
      recipes := [];
      isLoading := true;
      error := None;
    }

    /** The mount effect starts a load. */
    method StartLoad()
      modifies this
      ensures isLoading
      ensures recipes == old(recipes) && error == old(error)
    {
      isLoading := true;
    }

    /** The end of the fetch chain: an array replaces the list and clears
        the error; any failure records its message and keeps the list; in
        every case loading ends. */
    method Complete(outcome: Outcome)
      modifies this
      ensures !isLoading
      ensures outcome.Decoded? ==> recipes == outcome.recipes && error.None?
      ensures !outcome.Decoded? ==> recipes == old(recipes) && error == ErrorMessage(outcome)
    {
      match outcome {
        case Decoded(data) =>
          recipes := data;
          error := None;
        case _ =>
          error := ErrorMessage(outcome);
      }
      isLoading := false;
    }

    /** The panels on screen. */
    function Visible(language: string): (shown: set<Panel>)
      reads this
      ensures |shown| == 1
    {
      ExactlyOnePanel(isLoading, error, |LocalizeAll(recipes, language)|);
      Panels(isLoading, error, |LocalizeAll(recipes, language)|)
    }
  }

  /** A failure with an empty message (possible for a rejected request)
      leaves `error` falsy: the page then shows the previous list, or the
      empty message, instead of the error panel. */
  lemma EmptyMessageHidesError(count: nat)
    ensures ErrorPanel !in Panels(false, ErrorMessage(Rejected("")), count)
    ensures count > 0 ==> Grid in Panels(false, ErrorMessage(Rejected("")), count)
  {
  }
}
