/** The recipe card: its image path, its link slug and the fields it shows
    in the chosen language. */
module RecipeCard {
  import opened Wrappers
  import opened Text
  import opened Records
  import RecipeGrid

  const DefaultImagePath := "/images/default-image.jpg"

  /** `recipe.Image && recipe.Image !== "TBC" ? "/images/" + Image : default` */
  function ImagePath(image: Option<string>): string {
    if Truthy(image) && image.value != "TBC" then "/images/" + image.value else DefaultImagePath
  }

  /** The image path names the recipe's own image exactly when there is one
      that is not the "TBC" placeholder, and is the default otherwise; it
      never points at the placeholder or at the bare directory. */
  lemma ImagePathCases(image: Option<string>)
    ensures Truthy(image) && image.value != "TBC" ==> ImagePath(image) == "/images/" + image.value
    ensures !(Truthy(image) && image.value != "TBC") ==> ImagePath(image) == DefaultImagePath
    ensures image.Some? && image.value != "" && image.value != "TBC"
      <==> ImagePath(image) != DefaultImagePath || image == Some("default-image.jpg")
    ensures ImagePath(image) != "/images/TBC" && ImagePath(image) != "/images/"
    ensures StartsWith(ImagePath(image), "/images/")
  {
    var p := "/images/";
    if Truthy(image) && image.value != "TBC" {
      assert ImagePath(image) == p + image.value;
      assert ImagePath(image)[..8] == p;
      if ImagePath(image) == DefaultImagePath {
        assert image.value == ImagePath(image)[8..];
      }
    }
  }

  /** `TitleEN.toLowerCase().trim().replace(/ /g, "-").replace(/[^\w-]+/g, "")` */
  function Slug(title: string): string {
    KeepChars(ReplaceChar(JsTrim(Lower(title)), ' ', '-'), IsWordOrHyphen)
  }

  /** A character a slug may contain: `[a-z0-9_-]`. */
  predicate IsSlugChar(c: char) {
    IsLowerAscii(c) || IsDigit(c) || c == '_' || c == '-'
  }

  /** The card's link: `/recipes/${slug}`, where a missing `TitleEN` leaves
      `slug` undefined. */
  function CardHref(title: Option<string>): string {
    "/recipes/" + (if title.None? then "undefined" else Slug(title.value))
  }

  /** Slugs consist of lower-case ASCII letters, digits, `_` and `-`. */
  lemma SlugChars(title: string)
    ensures forall k :: 0 <= k < |Slug(title)| ==> IsSlugChar(Slug(title)[k])
  {
    var lower := Lower(title);
    var trimmed := JsTrim(lower);
    var dashed := ReplaceChar(trimmed, ' ', '-');
    assert forall k :: 0 <= k < |trimmed| ==> !IsUpperAscii(trimmed[k]);
    assert forall k :: 0 <= k < |dashed| ==> !IsUpperAscii(dashed[k]);
    KeepCharsFrom(dashed, IsWordOrHyphen);
  }

  /** Every character of a `KeepChars` result comes from its input. */
  lemma {:induction false} KeepCharsFrom(s: string, keep: char -> bool)
    ensures forall k :: 0 <= k < |KeepChars(s, keep)| ==> KeepChars(s, keep)[k] in s
  {
    if s != [] {
      KeepCharsFrom(s[1..], keep);
    }
  }

  lemma {:induction false} LowerWithoutCapitals(s: string)
    requires forall k :: 0 <= k < |s| ==> !IsUpperAscii(s[k]) && !IsUpperGreek(s[k])
    ensures Lower(s) == s
  {
    if s != [] {
      LowerWithoutCapitals(s[1..]);
    }
  }

  lemma ReplaceAbsent(s: string, from: char, to: char)
    requires from !in s
    ensures ReplaceChar(s, from, to) == s
  {
  }

  /** A text made of slug characters is its own slug. */
  lemma SlugOfSlugChars(s: string)
    requires forall k :: 0 <= k < |s| ==> IsSlugChar(s[k])
    ensures Slug(s) == s
  {
    forall k | 0 <= k < |s|
      ensures !IsUpperAscii(s[k]) && !IsUpperGreek(s[k]) && !IsJsSpace(s[k]) && IsWordOrHyphen(s[k])
    {
      SlugCharKinds(s[k]);
    }
    LowerWithoutCapitals(s);
    TrimTrimmed(s, IsJsSpace);
    ReplaceAbsent(s, ' ', '-');
  }

  /** A slug character is no capital, no space, and a word character or
      hyphen. */
  lemma SlugCharKinds(c: char)
    requires IsSlugChar(c)
    ensures !IsUpperAscii(c) && !IsUpperGreek(c) && !IsJsSpace(c) && IsWordOrHyphen(c)
  {
  }

  /** Slugging a slug changes nothing. */
  lemma SlugIdempotent(title: string)
    ensures Slug(Slug(title)) == Slug(title)
  {
    SlugChars(title);
    SlugOfSlugChars(Slug(title));
  }

  /** For a title of ASCII letters, digits, `_`, `-` and inner spaces, each
      space becomes one hyphen (a run of k spaces gives k hyphens), and the
      card's slug agrees with the grid's. */
  lemma SlugOfPlainTitle(title: string)
    requires forall k :: 0 <= k < |title| ==> IsWordOrHyphen(title[k]) || title[k] == ' '
    requires title != [] ==> title[0] != ' ' && title[|title| - 1] != ' '
    ensures Slug(title) == RecipeGrid.GridSlug(title)
    ensures forall k :: 0 <= k < |title| ==> (Slug(title)[k] == '-' <==> title[k] == ' ' || title[k] == '-')
  {
    var lower := Lower(title);
    PlainLower(title);
    TrimTrimmed(lower, IsJsSpace);
    var dashed := ReplaceChar(lower, ' ', '-');
    assert forall k :: 0 <= k < |dashed| ==> IsWordOrHyphen(dashed[k]);
  }

  lemma PlainCharLower(c: char)
    requires IsWordOrHyphen(c) || c == ' '
    ensures IsWordOrHyphen(LowerChar(c)) || LowerChar(c) == ' '
    ensures LowerChar(c) == ' ' <==> c == ' '
    ensures LowerChar(c) == '-' <==> c == '-'
    ensures c != ' ' ==> !IsJsSpace(LowerChar(c))
  {
  }

  /** Lower-casing keeps a plain title plain, with its ends non-blank. */
  lemma PlainLower(title: string)
    requires forall k :: 0 <= k < |title| ==> IsWordOrHyphen(title[k]) || title[k] == ' '
    requires title != [] ==> title[0] != ' ' && title[|title| - 1] != ' '
    ensures forall k :: 0 <= k < |title| ==> IsWordOrHyphen(Lower(title)[k]) || Lower(title)[k] == ' '
    ensures forall k :: 0 <= k < |title| ==> (Lower(title)[k] == ' ' <==> title[k] == ' ')
    ensures forall k :: 0 <= k < |title| ==> (Lower(title)[k] == '-' <==> title[k] == '-')
    ensures title != [] ==> !IsJsSpace(Lower(title)[0]) && !IsJsSpace(Lower(title)[|title| - 1])
  {
    forall k | 0 <= k < |title|
      ensures IsWordOrHyphen(Lower(title)[k]) || Lower(title)[k] == ' '
      ensures Lower(title)[k] == ' ' <==> title[k] == ' '
      ensures Lower(title)[k] == '-' <==> title[k] == '-'
      ensures title[k] != ' ' ==> !IsJsSpace(Lower(title)[k])
    {
      PlainCharLower(title[k]);
    }
  }

  /** A character that is neither a word character, a hyphen, a space nor
      an upper-case ASCII letter (such as `&` or a Greek letter) stays, at
      most lower-cased, in the grid's slug but never appears in the card's,
      so the two links differ. */
  lemma SlugsDiffer(title: string, k: nat)
    requires k < |title|
    requires !IsWordOrHyphen(title[k]) && title[k] != ' '
    requires !IsUpperAscii(title[k])
    ensures Slug(title) != RecipeGrid.GridSlug(title)
  {
    var grid := RecipeGrid.GridSlug(title);
    assert grid[k] == LowerChar(title[k]);
    assert !IsSlugChar(grid[k]);
    SlugChars(title);
  }

  /** A title with white space at either end loses it in the card's slug,
      which trims, but keeps its length in the grid's, which does not; so
      the two links differ. */
  lemma SlugsDifferOnPadding(title: string)
    requires title != [] && (IsJsSpace(title[0]) || IsJsSpace(title[|title| - 1]))
    ensures Slug(title) != RecipeGrid.GridSlug(title)
  {
    var lower := Lower(title);
    assert IsJsSpace(lower[0]) || IsJsSpace(lower[|lower| - 1]);
    var trimmed := JsTrim(lower);
    assert |trimmed| < |title|;
  }

  lemma GreekCharLower(c: char)
    requires '\U{0386}' <= c <= '\U{03CE}'
    ensures '\U{0386}' <= LowerChar(c) <= '\U{03CE}'
    ensures !IsJsSpace(LowerChar(c)) && !IsWordOrHyphen(LowerChar(c)) && LowerChar(c) != ' '
  {
  }

  /** A title of Greek letters alone has an empty slug. */
  lemma GreekTitleSlugEmpty(title: string)
    requires forall k :: 0 <= k < |title| ==> '\U{0386}' <= title[k] <= '\U{03CE}'
    ensures Slug(title) == ""
  {
    var lower := Lower(title);
    forall k | 0 <= k < |lower|
      ensures !IsJsSpace(lower[k]) && !IsWordOrHyphen(lower[k]) && lower[k] != ' '
    {
      GreekCharLower(title[k]);
    }
    TrimTrimmed(lower, IsJsSpace);
    ReplaceAbsent(lower, ' ', '-');
    KeepNone(lower, IsWordOrHyphen);
  }

  lemma {:induction false} KeepNone(s: string, keep: char -> bool)
    requires forall k :: 0 <= k < |s| ==> !keep(s[k])
    ensures KeepChars(s, keep) == []
  {
    if s != [] {
      KeepNone(s[1..], keep);
    }
  }

  /** A missing English title links to `/recipes/undefined`. */
  lemma MissingTitleHref()
    ensures CardHref(None) == "/recipes/undefined"
  {
  }

  /** What the card shows. */
  datatype Card = Card(
    href: string,
    image: string,
    alt: Option<string>,
    category: Option<string>,
    title: Option<string>,
    description: Option<string>)

  /** `RecipeCard({recipe, language})` */
  function RenderCard(r: Recipe, language: string): Card {
    Card(
      CardHref(Get(r, "TitleEN")),
      ImagePath(Get(r, "Image")),
      Pick(r, "Title", language),
      Pick(r, "Category", language),
      Pick(r, "Title", language),
      Pick(r, "ShortDescription", language))
  }

  /** The card shows the Greek fields exactly for "GR"; every other language
      shows the English card, and the link and image do not depend on the
      language. */
  lemma CardLanguage(r: Recipe, language: string)
    ensures language != "GR" ==> RenderCard(r, language) == RenderCard(r, "EN")
    ensures RenderCard(r, language).href == RenderCard(r, "EN").href
    ensures RenderCard(r, language).image == RenderCard(r, "EN").image
    ensures language == "GR" ==> RenderCard(r, language).title == Get(r, "TitleGR")
    ensures language == "GR" ==> RenderCard(r, language).category == Get(r, "CategoryGR")
    ensures language == "GR" ==> RenderCard(r, language).description == Get(r, "ShortDescriptionGR")
  {
    assert "Title" + "GR" == "TitleGR";
    assert "Category" + "GR" == "CategoryGR";
    assert "ShortDescription" + "GR" == "ShortDescriptionGR";
  }
}
