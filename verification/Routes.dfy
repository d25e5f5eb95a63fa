/** Every page exists under an English and a Greek path; each page sends a
    visitor whose language does not match the path to the other one.  The
    about page decides on the server (and again in the middleware), the
    other pages in the browser. */
module Routes {
  import opened Wrappers

  /** The English and the Greek path of one page. */
  datatype Synonym = Synonym(english: string, greek: string)

  const About := Synonym("/about", "/sxetika")
  const Contact := Synonym("/contact", "/epikoinonia")

  /** The decision every bilingual page makes: Greek on the English path
      goes to the Greek path, English on the Greek path goes to the English
      path, everything else stays. */
  function Redirect(s: Synonym, language: string, path: string): (target: Option<string>)
    ensures target.Some? <==>
      (language == "GR" && path == s.english) || (language == "EN" && path == s.greek)
    ensures target.Some? ==> target.value == (if language == "GR" then s.greek else s.english)
  {
    if language == "GR" && path == s.english then Some(s.greek)
    else if language == "EN" && path == s.greek then Some(s.english)
    else None
  }

  /** The target of a redirect is the path of the visitor's language, so
      re-evaluating it with the same language stays put: no loops. */
  lemma {:induction false} RedirectSettles(s: Synonym, language: string, path: string)
    requires s.english != s.greek
    requires Redirect(s, language, path).Some?
    ensures Redirect(s, language, Redirect(s, language, path).value).None?
  {
  }

  /** Switching language on either path lands on the other path, and
      switching back returns. */
  lemma {:induction false} RedirectRoundTrip(s: Synonym)
    requires s.english != s.greek
    ensures Redirect(s, "GR", s.english) == Some(s.greek)
    ensures Redirect(s, "EN", Redirect(s, "GR", s.english).value) == Some(s.english)
  {
  }

  /** A language other than "EN" and "GR" never redirects. */
  lemma OtherLanguagesStay(s: Synonym, language: string, path: string)
    requires language != "EN" && language != "GR"
    ensures Redirect(s, language, path).None?
  {
  }

  /** `cookie || "EN"`: a missing or empty cookie means English. */
  function CookieLanguage(cookie: Option<string>): (language: string)
    ensures language != ""
    ensures cookie.Some? && cookie.value != "" ==> language == cookie.value
    ensures cookie.None? || cookie.value == "" ==> language == "EN"
  {
    if cookie.Some? && cookie.value != "" then cookie.value else "EN"
  }

  datatype MiddlewareResponse = Next | RedirectTo(path: string)

  /** The middleware's decision for a request path and `language` cookie. */
  function Middleware(cookie: Option<string>, pathname: string): (response: MiddlewareResponse)
    ensures response.RedirectTo? <==> Redirect(About, CookieLanguage(cookie), pathname).Some?
    ensures response.RedirectTo? ==> response.path == Redirect(About, CookieLanguage(cookie), pathname).value
  {
    match Redirect(About, CookieLanguage(cookie), pathname)
    case Some(target) => RedirectTo(target)
    case None => Next
  }

  /** The paths the middleware is configured for. */
  predicate Matched(pathname: string) {
    pathname == About.english || pathname == About.greek
  }

  /** The matcher loses no redirect: the middleware only ever redirects
      on the paths it is configured for, and a redirect's target, asked
      again with the same cookie, is let through. */
  lemma MiddlewareOnMatchedPaths(cookie: Option<string>, pathname: string)
    ensures Middleware(cookie, pathname).RedirectTo? ==> Matched(pathname)
    ensures Middleware(cookie, pathname).RedirectTo? ==>
      Middleware(cookie, Middleware(cookie, pathname).path) == Next
  {
    if Middleware(cookie, pathname).RedirectTo? {
      RedirectSettles(About, CookieLanguage(cookie), pathname);
    }
  }

  /** What the about page's server-side step returns. */
  datatype ServerProps = TemporaryRedirect(destination: string) | Props(language: string)

  /** The about page's server-side decision on the raw request URL (the
      path with its query string, compared exactly). */
  function AboutProps(cookie: Option<string>, url: string): (result: ServerProps)
    ensures result.TemporaryRedirect? <==> Redirect(About, CookieLanguage(cookie), url).Some?
    ensures result.TemporaryRedirect? ==> result.destination == Redirect(About, CookieLanguage(cookie), url).value
    ensures result.Props? ==> result.language == CookieLanguage(cookie)
  {
    match Redirect(About, CookieLanguage(cookie), url)
    case Some(target) => TemporaryRedirect(target)
    case None => Props(CookieLanguage(cookie))
  }

  /** The server-side decision agrees with the middleware on every plain
      path; a query string defeats it. */
  lemma AboutAgreesWithMiddleware(cookie: Option<string>, pathname: string)
    ensures AboutProps(cookie, pathname).TemporaryRedirect? <==> Middleware(cookie, pathname).RedirectTo?
    ensures AboutProps(Some("GR"), "/about?x") == Props("GR")
  {
  }

  /** The contact page's navigation effect: the shared decision over
      the contact page's two paths. */
  function ContactNavigation(language: string, pathname: string): (target: Option<string>)
    ensures target.Some? <==>
      (language == "GR" && pathname == "/contact") || (language == "EN" && pathname == "/epikoinonia")
    ensures target.Some? ==> target.value == (if language == "GR" then "/epikoinonia" else "/contact")
  {
    Redirect(Contact, language, pathname)
  }

  /** Navigating to the contact page's target causes no further
      navigation. */
  lemma ContactSettles(language: string, pathname: string)
    requires ContactNavigation(language, pathname).Some?
    ensures ContactNavigation(language, ContactNavigation(language, pathname).value).None?
  {
    RedirectSettles(Contact, language, pathname);
  }

  /** The pages' `language === "EN" ? english : greek` text choice. */
  function Localized(language: string, english: string, greek: string): (shown: string)
    ensures language == "EN" ==> shown == english
    ensures language != "EN" ==> shown == greek
  {
    if language == "EN" then english else greek
  }
}
