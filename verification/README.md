# Grandpa Tassos recipe site, modelled in Dafny

This project models the logic behind the bilingual (English/Greek) Grandpa
Tassos recipe site. The model covers:

- the recipe grid: date parsing, newest-first order, YouTube thumbnails,
  category links and labels, title links and "show more" pagination;
- the recipe card;
- the bilingual category table;
- the English/Greek path pairs that the middleware, the about and contact
  pages and every category page redirect between;
- the category pages' filters;
- the two authoring pages that turn typed cooking steps into an HTML list;
- the Python script that turns such a list back into a list of steps;
- the home page's load state;
- the language and cookie-consent state kept in the browser's local
  storage.

Some modelling choices:

- A recipe is a `map<string, string>` (`Records`). A missing key stands
  for JavaScript's `undefined`, because the site looks fields up under
  built keys such as `"Category" + language`.
- Dates are day numbers counted from 1 January 1970 (`Calendar`). They
  follow the ECMAScript `MakeDay` roll-over of an out-of-range month or
  day, and the `Date` constructor's reading of years 0 to 99 as 1900 to
  1999. `TimeClip` turns a day more than 10^8 days from the epoch into an
  Invalid Date (`NaN`).
- `parseInt` (`JsNumber`) skips leading white space, reads an optional
  sign and then digits. It yields `None` for `NaN`.
- The YouTube pattern is modelled with its backtracking order
  (`VideoThumbnail`): the leftmost match, the alternatives in order, and
  greedy choices for the last `/` and the last `v=`.
- JavaScript's `trim` and Python's `strip` have their own whitespace sets
  (`Text`).
- Lower-casing is exact on ASCII and Greek capitals.
- The state that components keep across events is modelled as classes:
  - `RecipeGridState`;
  - `RecipeForm`;
  - `RecipeCreator`;
  - `Home`;
  - `LanguageProvider`;
  - `CookieBanner`;
  - the `Storage` they share.
- The Python loop works in place on an `array` of decoded records.

The central results:

- `StepsRoundTrip.FormatThenConvert`: converting the generated HTML back
  gives exactly the trimmed non-blank lines typed in.
- `RecipeGrid.SortNewestFirst`: the grid's order is a permutation, and a
  stable newest-first one when every date is a valid time value.
- `Routes.RedirectSettles`: redirects never loop.
- `CategoryPages.SpecialsAsWrittenDropsGreek`: the specials page
  mismatches its Greek category (see Findings).

## Model

| member | source | states |
|---|---|---|
| JsNumber.ParseIntDigits | src/app/components/RecipeGrid.jsx:16 | a run of digits followed by a non-digit parses to its decimal value |
| JsNumber.ParseIntNegative | src/app/components/RecipeGrid.jsx:16 | a leading minus negates the parsed value |
| JsNumber.ParseIntNoDigit | src/app/components/RecipeGrid.jsx:16-17 | text without any digit is `NaN` |
| RecipeGrid.ParseDateFallsBack | src/app/components/RecipeGrid.jsx:11-17 | each of the following gives the epoch: no string, not exactly three `/`-parts, or a part without a leading integer |
| RecipeGrid.ParseDateParts | src/app/components/RecipeGrid.jsx:13-20 | three `/`-parts that each begin with an integer give `new Date(year, month - 1, day)` of those integers |
| RecipeGrid.ParseDateDigits | src/app/components/RecipeGrid.jsx:16-20 | `d/m/y` in digits is `new Date(y, m - 1, d)`: the time-clipped MakeDay day, with the two-digit-year reading and month/day roll-over |
| RecipeGrid.ParseDateValid | src/app/components/RecipeGrid.jsx:16-20 | for a real calendar date with year >= 100, the result is a valid time value exactly up to 13 September 275760, and then it is that date's day number |
| RecipeGrid.ParseDateTooLate | src/app/components/RecipeGrid.jsx:16-20 | `1/1/300000` parses to an Invalid Date |
| Calendar.DaysInMonth | src/app/components/RecipeGrid.jsx:20 | months have 28 to 31 days; February has 29 exactly in leap years |
| Calendar.FullYear | src/app/components/RecipeGrid.jsx:20 | years 0 to 99 stand for 1900 to 1999; other years are kept |
| Calendar.EpochIsDayZero | src/app/components/RecipeGrid.jsx:12 | the fallback `new Date(0)` and 1 January 1970 are the same day |
| Calendar.DayNumberOrder | src/app/components/RecipeGrid.jsx:20-24 | day numbers order valid dates by year, then month, then day (both directions) |
| Calendar.DayNumberInjective | src/app/components/RecipeGrid.jsx:20 | distinct valid dates have distinct day numbers |
| Calendar.EpochSplits | src/app/components/RecipeGrid.jsx:12-24 | a valid date is before the epoch exactly when its year is before 1970, and after it exactly when it is later than 1 January 1970, so an unparsable date sorts between the two |
| Calendar.MonthIndexCarries | src/app/components/RecipeGrid.jsx:20 | a month index 12 past another is the same month a year later |
| Calendar.DayOverflowCarries | src/app/components/RecipeGrid.jsx:20 | the day after a month's last day is the next month's first |
| Calendar.NextDay | src/app/components/RecipeGrid.jsx:20 | consecutive day arguments give consecutive day numbers |
| Calendar.TwoDigitYears | src/app/components/RecipeGrid.jsx:20 | years 0 to 99 give the same day as 1900 to 1999 |
| Calendar.MakeDayOfMonth | src/app/components/RecipeGrid.jsx:20 | for a month in 1..12, MakeDay of its zero-based index is the plain calendar day number |
| Calendar.DateFromPartsOfMonth | src/app/components/RecipeGrid.jsx:20 | for a year of at least 100 and a month in 1..12, the MakeDay day of `new Date(year, month - 1, day)`, before TimeClip, is the plain calendar day number |
| Calendar.TimeClip | src/app/components/RecipeGrid.jsx:20 | a day is kept exactly when it lies within 10^8 days of the epoch; otherwise the date is Invalid |
| Calendar.LastDay | src/app/components/RecipeGrid.jsx:20 | 13 September 275760 is day 10^8, the last valid one |
| Calendar.NewDateRange | src/app/components/RecipeGrid.jsx:20 | from year 100 on, `new Date` of a real date is valid exactly up to 13 September 275760, and then it is that date's day number |
| Calendar.WithinYear | src/app/components/RecipeGrid.jsx:20 | a valid date falls between its own New Year's day and the next one |
| RecipeGrid.SortNewestFirst | src/app/components/RecipeGrid.jsx:24 | the sorted copy is a permutation of the recipes; when every date is a valid time value, its parsed dates never increase |
| RecipeGrid.SortNewestFirstStable | src/app/components/RecipeGrid.jsx:24 | when every date is a valid time value, recipes with equal dates keep their input order |
| RecipeGrid.SortNewestFirstOfSorted | src/app/components/RecipeGrid.jsx:24 | when every date is a valid time value, a list already newest-first is returned unchanged |
| VideoThumbnail.LastSlashBeforeId | src/app/components/RecipeGrid.jsx:30 | the greedy `\S+\/` stops at the last `/` that an 11-character ID follows |
| VideoThumbnail.LastVParam | src/app/components/RecipeGrid.jsx:30 | the greedy `.*[?&]v=` stops at the last `v=` that an ID follows on the line |
| VideoThumbnail.MatchAt | src/app/components/RecipeGrid.jsx:30 | a match at a position captures a position holding an 11-character ID |
| VideoThumbnail.FirstMatch | src/app/components/RecipeGrid.jsx:29-31 | the match found is the leftmost one |
| VideoThumbnail.Capture | src/app/components/RecipeGrid.jsx:29-31 | the group captured by the leftmost match starts at an 11-character ID |
| VideoThumbnail.VideoId | src/app/components/RecipeGrid.jsx:28-32 | a captured ID is 11 characters from `[A-Za-z0-9_-]` |
| VideoThumbnail.ImageLinkCases | src/app/components/RecipeGrid.jsx:32-35 | with an ID, the thumbnail is `https://img.youtube.com/vi/ID/maxresdefault.jpg`; without one, it is the default image |
| VideoThumbnail.NoHostNoThumbnail | src/app/components/RecipeGrid.jsx:28-35 | a missing link, or a link naming neither host, gives the default image |
| VideoThumbnail.ShortLinkId | src/app/components/RecipeGrid.jsx:30 | `youtu.be/ID` yields ID |
| VideoThumbnail.EmbedLinkId | src/app/components/RecipeGrid.jsx:30 | `youtube.com/embed/ID` yields ID when no later `/` follows |
| VideoThumbnail.VLinkId | src/app/components/RecipeGrid.jsx:30 | `youtube.com/v/ID` yields ID when no later `/` follows |
| VideoThumbnail.WatchLinkId | src/app/components/RecipeGrid.jsx:30 | `youtube.com/watch?v=ID` yields ID when no later `/`, `?v=` or `&v=` follows; other parameters may follow |
| VideoThumbnail.WatchLinkWithTime | src/app/components/RecipeGrid.jsx:30 | `https://www.youtube.com/watch?v=ID&t=42s` yields ID |
| RecipeGrid.FindCategory | src/app/components/RecipeGrid.jsx:40-42 | the index found is the first entry whose `name` or `en` equals the name; none means no entry does |
| RecipeGrid.CategoryPath | src/app/components/RecipeGrid.jsx:39-44 | there is a result exactly for "GR" and "EN"; any other language makes the lookup throw |
| RecipeGrid.GreekMatches | src/app/components/RecipeGrid.jsx:41 | a Greek entry matches exactly its own Greek name and its English name |
| RecipeGrid.OwnNameFindsOwnPath | src/app/components/RecipeGrid.jsx:39-44 | each category's own name finds its own path, in both languages |
| RecipeGrid.EnglishNameFindsGreekPath | src/app/components/RecipeGrid.jsx:40-42 | in Greek, an English name finds the Greek path of the same category |
| RecipeGrid.GreekNameInEnglishFallsBack | src/app/components/RecipeGrid.jsx:39-44 | in English, a Greek name finds nothing and gives "/" |
| RecipeGrid.UnknownNameFallsBack | src/app/components/RecipeGrid.jsx:43 | a name that no entry carries gives "/" |
| RecipeGrid.MissingNameLookup | src/app/components/RecipeGrid.jsx:39-44 | a missing category links to "/starters" in English (it equals the absent `en`) and to "/" in Greek |
| RecipeGrid.Label | src/app/components/RecipeGrid.jsx:68-70 | the label is the lower-cased name with a leading word character upper-cased |
| RecipeGrid.LabelOfEnglishName | src/app/components/RecipeGrid.jsx:68-70 | an English name keeps its capital and the rest is lower case |
| RecipeGrid.LabelOfGreekName | src/app/components/RecipeGrid.jsx:68-70 | a Greek name comes out entirely in lower case, because `\w` does not match Greek |
| RecipeGrid.GridSlug | src/app/components/RecipeGrid.jsx:87 | the grid slug is the title lower-cased, with each space replaced by `-`, and has the same length |
| RecipeGrid.RenderCard | src/app/components/RecipeGrid.jsx:54-95 | a cell renders exactly when `TitleEN` exists and, off category pages, the language has a table and the recipe has that language's category; its link, image and category link are the ones derived above |
| RecipeGrid.Window | src/app/components/RecipeGrid.jsx:54 | `slice(0, n)` is the first min(n, length) elements |
| RecipeGrid.RecipeGridState.constructor | src/app/components/RecipeGrid.jsx:7-8 | pagination starts at 12 |
| RecipeGrid.RecipeGridState.Shown | src/app/components/RecipeGrid.jsx:24-54 | the cells are the first min(visible, n) recipes of the sorted copy |
| RecipeGrid.RecipeGridState.ShowMore | src/app/components/RecipeGrid.jsx:101 | "show more" appears exactly while some recipes are hidden |
| RecipeGrid.RecipeGridState.View | src/app/components/RecipeGrid.jsx:50-108 | the grid renders exactly when every shown cell renders, with the button exactly when recipes remain |
| RecipeGrid.RecipeGridState.LoadMore | src/app/components/RecipeGrid.jsx:46-48 | `loadMore` adds 12 and extends the shown cells without reordering them |
| RecipeGrid.PaginationAfterClicks | src/app/components/RecipeGrid.jsx:46-54 | in a grid after k clicks, min(12(k+1), n) cells show, and the button shows exactly while 12(k+1) < n |
| RecipeGrid.WindowGrows | src/app/components/RecipeGrid.jsx:54 | a larger window extends a smaller one |
| RecipeGrid.UnknownLanguageBreaksHomeGrid | src/app/components/RecipeGrid.jsx:63-70 | off category pages, a language other than GR/EN makes a non-empty grid throw |
| RecipeGrid.CategoryPageRenders | src/app/components/RecipeGrid.jsx:60-88 | on a category page, every recipe that has an English title renders |
| CategoryMapping.Table | src/utils/categoryMapping.js:2-22 | only "GR" and "EN" have a table |
| CategoryMapping.TableSizes | src/utils/categoryMapping.js:3-22 | both lists have 8 entries |
| CategoryMapping.GreekEntriesDistinct | src/utils/categoryMapping.js:3-12 | Greek names are unique, and so are Greek paths |
| CategoryMapping.EnglishEntriesDistinct | src/utils/categoryMapping.js:13-22 | English names are unique, and so are English paths |
| CategoryMapping.PathsDisjoint | src/utils/categoryMapping.js:3-22 | every path starts with `/`, and no path is in both lists |
| CategoryMapping.TablesAligned | src/utils/categoryMapping.js:4-21 | entry i of both lists is the same category: `GR[i].en == EN[i].name` and `EN[i].gr == GR[i].name` |
| CategoryMapping.NamesDisjoint | src/utils/categoryMapping.js:3-22 | no English name is a Greek name |
| RecipeCard.ImagePathCases | src/app/components/RecipeCard.js:5-7 | the image path is `/images/` + Image when Image is non-empty and not "TBC", and the default otherwise; it is non-default exactly in the first case (or for an Image named like the default), and never `/images/TBC` or `/images/` |
| RecipeCard.SlugChars | src/app/components/RecipeCard.js:10-12 | a slug holds only `[a-z0-9_-]` |
| RecipeCard.SlugOfSlugChars | src/app/components/RecipeCard.js:10-12 | a text made of slug characters is its own slug |
| RecipeCard.SlugIdempotent | src/app/components/RecipeCard.js:10-12 | slugging a slug changes nothing |
| RecipeCard.SlugOfPlainTitle | src/app/components/RecipeCard.js:10-12 | for a plain ASCII title, the card slug equals the grid slug, and each space (so each run of k spaces) becomes a hyphen |
| RecipeCard.SlugsDiffer | src/app/components/RecipeCard.js:10-12 | a character outside `[A-Za-z0-9_ -]` (a Greek letter included) makes the card slug differ from the grid slug, which keeps it lower-cased |
| RecipeCard.SlugsDifferOnPadding | src/app/components/RecipeCard.js:10-12 | white space at either end of the title makes the card slug, which trims, differ from the grid slug, which does not |
| RecipeCard.GreekTitleSlugEmpty | src/app/components/RecipeCard.js:10-12 | a title of Greek letters has the empty slug |
| RecipeCard.MissingTitleHref | src/app/components/RecipeCard.js:10-15 | a missing `TitleEN` links to `/recipes/undefined` |
| RecipeCard.CardLanguage | src/app/components/RecipeCard.js:19-31 | the card shows the Greek fields exactly for "GR", and the English card for every other language |
| ExecutionFormat.Steps | src/app/components/RecipeToJson.js:29 | the steps are non-blank and contain no newline |
| ExecutionFormat.StepsAreNonBlankLines | src/app/components/RecipeToJson.js:29 | the steps are exactly the non-blank lines, each as often as it occurs, in order |
| ExecutionFormat.TrimEach | src/app/components/RecipeToJson.js:33 | each step is trimmed |
| ExecutionFormat.Items | src/app/components/RecipeToJson.js:31-34 | one item per step, in order |
| ExecutionFormat.FormatExecution | src/app/components/RecipeToJson.js:28-36 | the output starts with `<ol class="font_8">\n  ` and ends with `\n</ol>` (the same text as src/app/test/page.js:48-56) |
| ExecutionFormat.BlankExecution | src/app/components/RecipeToJson.js:29-35 | blank input gives `<ol class="font_8">\n  \n</ol>` |
| ExecutionFormat.SingleStep | src/app/components/RecipeToJson.js:30-35 | one line gives one `<li><p class="font_8">…</p></li>` holding the trimmed line, unescaped |
| RecipeToJson.InitialRecipeShape | src/app/components/RecipeToJson.js:4-21 | the initial record has 16 keys, all empty, and no `LongDescriptionEN` |
| RecipeToJson.Formatted | src/app/components/RecipeToJson.js:39-43 | the download record is the form record with the two Execution fields formatted; it is `None` (throws) if either field is missing |
| RecipeToJson.FileName | src/app/components/RecipeToJson.js:49 | the file name is the title + ".json", or "recipe.json" when the title is empty or missing |
| RecipeToJson.FileNames | src/app/components/RecipeToJson.js:49 | distinct non-empty titles give distinct names; the title "recipe" collides with the empty title |
| RecipeToJson.RecipeForm.constructor | src/app/components/RecipeToJson.js:4-21 | the form starts from the initial record |
| RecipeToJson.RecipeForm.HandleChange | src/app/components/RecipeToJson.js:23-25 | only the named field changes |
| RecipeToJson.RecipeForm.HandleDownload | src/app/components/RecipeToJson.js:38-49 | the record written is the formatted form record, under the name derived from `TitleEN` |
| TestPage.LocalTablesMatch | src/app/test/page.js:7-27 | the page's category lists equal the shared table entry by entry |
| TestPage.Options | src/app/test/page.js:97-102 | a select offers the placeholder "", then each name in order |
| TestPage.OptionValues | src/app/test/page.js:93-117 | a select value is "" or a name of its list |
| TestPage.OptionsListed | src/app/test/page.js:93-117 | the two selects list exactly these values |
| TestPage.StateKeysShape | src/app/test/page.js:30-45 | there are 16 state fields, including `LongDescriptionEN` and not `Image` |
| TestPage.FileName | src/app/test/page.js:82 | the file name is `titleEN` + ".json", or "recipe.json" when it is empty |
| TestPage.RecipeCreator.constructor | src/app/test/page.js:30-45 | every state field starts empty |
| TestPage.RecipeCreator.Set | src/app/test/page.js:93-117 | a setter changes only its own field; a category can only take a value its select offers |
| TestPage.RecipeCreator.CategoriesChosen | src/app/test/page.js:93-117 | each category is "" or a name from the shared table |
| TestPage.RecipeCreator.GenerateJson | src/app/test/page.js:58-76 | the record copies every state value verbatim, except the two formatted Execution fields |
| TestPage.RecipeCreator.RecordShape | src/app/test/page.js:58-76 | the record has exactly 16 keys, `LongDescriptionEN` among them and no `Image` |
| HtmlToSteps.FirstClose | public/process_recipes.py:17-19 | a lazy `.*?>` stops at the first `>` on the same line |
| HtmlToSteps.StripTags | public/process_recipes.py:17-19 | `re.sub` never lengthens the text |
| HtmlToSteps.StripEach | public/process_recipes.py:20 | each line is stripped |
| HtmlToSteps.TextLines | public/process_recipes.py:17-20 | the lines with text after tag removal form an order-preserving subsequence holding each such line as often as it occurs, and no blank line |
| HtmlToSteps.ConvertHtmlToJson | public/process_recipes.py:15-21 | the steps are those lines with text, each stripped, in order; every step is non-empty, already stripped and one line long |
| HtmlToSteps.StripLeavesSafe | public/process_recipes.py:19 | after the last substitution, no `<` has a `>` after it on its line |
| HtmlToSteps.NoTagSurvives | public/process_recipes.py:17-20 | no step contains a `<` followed later by a `>` |
| StepsRoundTrip.FormatThenConvert | public/process_recipes.py:15-21 | for text without `<` whose whitespace both languages agree on, converting the formatted HTML gives back exactly the trimmed non-blank lines, in order |
| ProcessRecipes.Strings | public/process_recipes.py:20 | Python strings become a JSON array of strings, in order |
| ProcessRecipes.ConvertField | public/process_recipes.py:25-28 | an existing field is replaced by clean steps; a missing one changes nothing; a non-string value raises |
| ProcessRecipes.ProcessRecipe | public/process_recipes.py:24-28 | only existing Execution fields change and become clean steps; the keys are kept; it fails exactly when a present field is not a string |
| ProcessRecipes.ProcessAt | public/process_recipes.py:25-28 | one pass of the loop body converts the record in place, or leaves it with only the Greek field converted when the English one raises; no other record changes |
| ProcessRecipes.ProcessAll | public/process_recipes.py:24-28 | the records before the stopping point are processed in place, the list length and order are kept, and a failing record is left half-converted while the later ones stay untouched |
| ProcessRecipes.SecondRunFails | public/process_recipes.py:25-28 | running the script over its own output raises |
| HomePage.SetField | src/app/page.js:42-51 | the key reads the new value (or is missing) and nothing else changes |
| HomePage.Project | src/app/page.js:42-51 | listed fields read `<field><language>`; other fields are unchanged |
| HomePage.Localize | src/app/page.js:42-51 | the seven plain fields read the language's field, and every other field is kept |
| HomePage.LocalizeAll | src/app/page.js:42-51 | the view has the recipes' length and order, each element localized |
| HomePage.LocalizeKeepsSources | src/app/page.js:42-51 | for EN and GR, the language-specific fields survive the spread |
| JsNumber.DecimalString | src/app/page.js:20 | the status text is the digits of the status |
| HomePage.ErrorMessage | src/app/page.js:18-35 | a decoded array gives no error; a bad status, a non-array or a rejection give their message |
| HomePage.Panels | src/app/page.js:82-152 | spinner exactly while loading; error exactly when there is an error and no loading; grid or empty message exactly when neither, depending on the count |
| HomePage.ExactlyOnePanel | src/app/page.js:82-152 | exactly one panel shows |
| HomePage.Home.constructor | src/app/page.js:9-11 | no recipes, loading, no error |
| HomePage.Home.StartLoad | src/app/page.js:16 | loading starts; recipes and error are kept |
| HomePage.Home.Complete | src/app/page.js:24-38 | an array replaces the recipes and clears the error; any failure keeps the recipes and records its message; loading ends either way |
| HomePage.Home.Visible | src/app/page.js:82-152 | the page shows one panel |
| HomePage.EmptyMessageHidesError | src/app/page.js:94 | a rejection with an empty message shows no error panel |
| BrowserState.Storage.GetItem | src/app/context/LanguageContext.js:17 | `getItem` is the stored value or null |
| BrowserState.Storage.SetItem | src/app/context/LanguageContext.js:26 | `setItem` changes only its key |
| BrowserState.Restored | src/app/context/LanguageContext.js:16-21 | a non-empty stored language is taken; otherwise the current one stays |
| BrowserState.LanguageProvider.constructor | src/app/context/LanguageContext.js:13 | the language starts as "EN" |
| BrowserState.LanguageProvider.Restore | src/app/context/LanguageContext.js:16-21 | the language is restored from storage, which is only read |
| BrowserState.LanguageProvider.HandleLanguageChange | src/app/context/LanguageContext.js:24-27 | the language and `storage["language"]` become the new value; no other key changes |
| BrowserState.ChangeSurvivesReload | src/app/context/LanguageContext.js:17-26 | a fresh provider restores a non-empty chosen language |
| BrowserState.RestoreIsUnchecked | src/app/context/LanguageContext.js:18-19 | any stored value is restored, even one that is neither EN nor GR |
| BrowserState.InitiallyAccepted | src/app/components/CookieBanner.js:4-6 | consent holds exactly in a browser with a non-empty stored value |
| BrowserState.FalseCountsAsAccepted | src/app/components/CookieBanner.js:4-6 | a stored "false" counts as consent; without a window nothing does |
| BrowserState.AfterAccept | src/app/components/CookieBanner.js:9 | accepting writes "true" under the consent key and keeps the other keys |
| BrowserState.AcceptIdempotent | src/app/components/CookieBanner.js:8-11 | accepting twice equals accepting once, and the next visit finds consent |
| BrowserState.CookieBanner.constructor | src/app/components/CookieBanner.js:4-6 | the banner starts with the consent found in storage |
| BrowserState.CookieBanner.AcceptCookies | src/app/components/CookieBanner.js:8-13 | consent is set and stored, and the banner renders nothing |
| Routes.CookieLanguage | src/middleware.js:5 | the language is the cookie if it is non-empty, else "EN" |
| Routes.Redirect | src/middleware.js:7-15 | GR on the English path goes to the Greek path, and EN on the Greek path goes to the English one; every other combination stays |
| Routes.RedirectSettles | src/middleware.js:7-15 | a redirect target, asked again with the same language, stays |
| Routes.RedirectRoundTrip | src/middleware.js:7-13 | switching language on a path, and switching back, returns to it |
| Routes.OtherLanguagesStay | src/middleware.js:15 | languages other than EN and GR never redirect |
| Routes.Middleware | src/middleware.js:3-16 | the middleware redirects exactly as the shared decision for `/about`↔`/sxetika` |
| Routes.MiddlewareOnMatchedPaths | src/middleware.js:7-20 | redirects happen only on the matched paths, and their targets pass through |
| Routes.AboutProps | src/app/about/page.js:5-27 | the decision is a temporary redirect exactly as the shared one on the raw URL; otherwise it gives props with the cookie language |
| Routes.AboutAgreesWithMiddleware | src/app/about/page.js:8-26 | the server and the middleware agree on plain paths; `/about?x` does not redirect |
| Routes.Localized | src/app/about/page.js:38-41 | English text exactly for "EN"; Greek for any other value |
| Routes.ContactNavigation | src/app/epikoinonia/page.js:13-19 | GR on `/contact` goes to `/epikoinonia`, and EN on `/epikoinonia` goes to `/contact`; nothing else navigates |
| Routes.ContactSettles | src/app/epikoinonia/page.js:14-17 | a navigation target causes no further navigation |
| CategoryPages.SelectedCategory | src/app/breads-dough/page.js:32 | the English name for "EN" and the Greek name for any other language (the same line on every category page) |
| CategoryPages.Shown | src/app/mezedes/page.js:32-35 | the shown records are an order-preserving subsequence holding exactly the records (with multiplicity) whose `Category<language>` is the selected name |
| CategoryPages.Navigation | src/app/festive/page.js:15-21 | GR on the English path and EN on the Greek path navigate to the other path; nothing else does (the same effect on every category page) |
| CategoryPages.NavigationSettles | src/app/desserts/page.js:15-21 | a navigation target causes no further navigation |
| CategoryPages.PagesMatchTable | src/utils/categoryMapping.js:3-22 | every page (specials corrected) has the paths and names of one table entry; Barbecue has no page |
| CategoryPages.NoCategoryLinks | src/app/kyrios/page.js:43 | the grid of a category page carries no category links |
| CategoryPages.SpecialsAsWrittenDropsGreek | src/app/specials/page.js:32-35 | as written, every record filed under the table's Greek name for specials is left out of the Greek page, whatever list it comes in |
| CategoryPages.SpecialsKeepsGreek | src/app/specials/page.js:32-35 | corrected, the Greek page keeps a record exactly when its `CategoryGR` is the table's name |
| CategoryPages.VegetarianShown | src/app/vegetarian/page.js:32-41 | an order-preserving subsequence of exactly the records the language's filter keeps |
| CategoryPages.VegetarianOtherLanguage | src/app/vegetarian/page.js:33-39 | for a language other than EN and GR, the filter searches `TagsEN` for "null", not for "Vegetarian" |
| CategoryPages.VegetarianPagesDiffer | src/app/nistisima/page.js:15-35 | `/nistisima` shares the vegetarian page's paths but selects by category, while the vegetarian page selects by tag in English |
| CategoryPages.VegetarianPagesAgreeInGreek | src/app/vegetarian/page.js:36-37 | in Greek, both pages keep the same records |
| CategoryPages.ThirdLanguageMixes | src/app/desserts/page.js:32-35 | for a third language, cards show English fields while the page selects the Greek category name |

## Left out

- Fetching `recipes.json` and decoding JSON are not modelled. The model starts from the decoded value, or from the outcome of the fetch chain (`HomePage.Outcome`).
- The category pages' own fetch effects, and the `recipes` state they set once, are left out for the same reason.
- The Blob, object URL and anchor-click plumbing of both downloads is left out. The model keeps the record and the file name.
- Reading and writing files in the Python script is left out, and so is the `saveRecipes` API route. The script's loop works on the decoded list.
- The Python script's behaviour on a list element that is not a dict is left out.
- The admin and login password checks are left out: each is one comparison with a secret.
- The header, the layouts, the document and config files, the YouTube embed component and the prose paragraphs are left out: they are markup.
- Whether the framework calls the about page's server-side function is left out; only its decision is modelled.
- The context value's shape (`language` plus `handleLanguageChange`) is not modelled as a value. The provider's two members are the class's field and method.
- `useEffect` scheduling and re-render timing are left out. Effects are methods the caller invokes.
- Case mapping is exact only on ASCII and Greek capitals (accented ones included). Other scripts, and the Greek final sigma, are left out.
- JavaScript `Date` time zones, times of day and milliseconds are left out. A date is a day number.
- RecipeGrid.ParseDateDigits: `parseInt`'s rounding to a double beyond 2^53 is not modelled, nor are the intermediate range limits of `MakeDay`; only the final TimeClip is.
- RecipeGrid.SortNewestFirst: with an Invalid Date the comparator returns `NaN`, so the order is implementation-defined. The model ranks such a record as day 0 and promises only a permutation then.
- RecipeGrid.SortNewestFirstStable: holds only when every date is a valid time value, for the same reason.
- RecipeGrid.SortNewestFirstOfSorted: holds only when every date is a valid time value, for the same reason.
- RecipeGrid.RenderCard: an image `alt` or title that is `undefined` is modelled as absent, not as the text "undefined".
- HomePage.Localize: a field set to `undefined` by the spread is modelled as a missing key.
- The two `formatExecution` copies (RecipeToJson.js and test/page.js) are the same text, modelled once by `ExecutionFormat.FormatExecution`.
- TestPage.RecipeCreator: the sixteen `useState` variables are modelled as one map keyed by the record key each is written to.
- StepsRoundTrip.FormatThenConvert: requires step text without `<`, and requires every character to be whitespace to both JavaScript's `trim` and Python's `strip` or to neither. Outside these conditions the round trip can fail, for example on a step containing a tag.
- ExecutionFormat.FormatExecution: the output is HTML text only. Nothing about how a browser renders it is modelled.
- VideoThumbnail: the concrete-link lemmas assume no `y` before the host. A `y` earlier in the text could start a different leftmost match, which the general `FirstMatch` covers.
- RecipeCard: none of the modelled pages renders the card, so it is modelled on its own, without a caller.

## Findings

| source | as written | input that shows it | evidently intended | confidence | as-written member | corrected member |
|---|---|---|---|---|---|---|
| src/app/specials/page.js:32 | the Greek category compared is `" Μερακλίδικα"`, with a leading space | language "GR" and a recipe whose `CategoryGR` is "Μερακλίδικα" (the table's name): the page shows nothing | compare with "Μερακλίδικα", the name in src/utils/categoryMapping.js:7 | high; not executed | CategoryPages.SpecialsAsWrittenDropsGreek | CategoryPages.SpecialsKeepsGreek |
