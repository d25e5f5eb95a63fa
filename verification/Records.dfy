/** A recipe as the site sees it after JSON decoding: an object whose
    fields are looked up by names built at run time (`"Category" +
    language`).  A field that is absent reads as `undefined`. */
module Records {
  import opened Wrappers

  type Recipe = map<string, string>

  /** JavaScript `recipe[key]`: the value, or `None` for `undefined`. */
  function Get(r: Recipe, key: string): (v: Option<string>)
    ensures v.Some? <==> key in r
    ensures v.Some? ==> v.value == r[key]
  {
    if key in r then Some(r[key]) else None
  }

  /** JavaScript truthiness of a field: present and not the empty string. */
  predicate Truthy(v: Option<string>) {
    v.Some? && v.value != ""
  }

  /** `language === "GR" ? recipe.<field>GR : recipe.<field>EN`: the Greek
      field for "GR", the English one for every other language. */
  function Pick(r: Recipe, field: string, language: string): (v: Option<string>)
    ensures language == "GR" ==> v == Get(r, field + "GR")
    ensures language != "GR" ==> v == Get(r, field + "EN")
  {
    Get(r, field + (if language == "GR" then "GR" else "EN"))
  }
}
