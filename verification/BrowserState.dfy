/** The two pieces of state the site keeps in the browser's local
    storage: the chosen language and the cookie consent. */
module BrowserState {
  import opened Wrappers
  import opened Records

  /** The browser's `localStorage`: string keys to string values. */
  class Storage {
    var items: map<string, string>

    constructor(items: map<string, string>)
      ensures this.items == items
    {
      this.items := items;
    }

    /** `localStorage.getItem(key)`: the value, or `null`. */
    method GetItem(key: string) returns (v: Option<string>)
      ensures v == Get(items, key)
    {
      v := Get(items, key);
    }

    /** `localStorage.setItem(key, value)` */
    method SetItem(key: string, value: string)
      modifies this
      ensures items == old(items)[key := value]
    {
      items := items[key := value];
    }
  }

  const LanguageKey := "language"
  const ConsentKey := "cookiesAccepted"

  /** The language after the restore effect: a non-empty stored value,
      taken as it is, or else the current language. */
  function Restored(items: map<string, string>, current: string): (language: string)
    ensures Truthy(Get(items, LanguageKey)) ==> language == items[LanguageKey]
    ensures !Truthy(Get(items, LanguageKey)) ==> language == current
  {
    if Truthy(Get(items, LanguageKey)) then items[LanguageKey] else current
  }

  /** The language provider: a `language` state and the storage it writes
      through to. */
  class LanguageProvider {
    var language: string
    const storage: Storage

    /** `useState("EN")`: English until the restore effect runs. */
    constructor(storage: Storage)
      ensures language == "EN" && this.storage == storage
    {
      language := "EN";
      this.storage := storage;
    }

    /** The mount effect: restore a stored language.  Storage is only
        read. */
    method Restore()
      modifies this
      ensures language == Restored(storage.items, old(language))
      ensures storage.items == old(storage.items)
    {
      var stored := storage.GetItem(LanguageKey);
      if Truthy(stored) {
        language := stored.value;
      }
    }

    /** `handleLanguageChange`: the new language, written through. */
    method HandleLanguageChange(newLanguage: string)
      modifies this, storage
      ensures language == newLanguage
      ensures storage.items == old(storage.items)[LanguageKey := newLanguage]
    {
      language := newLanguage;
      storage.SetItem(LanguageKey, newLanguage);
    }
  }

  /** A change survives a reload: a fresh provider restores the chosen
      language, unless it was empty, which restores the default. */
  lemma ChangeSurvivesReload(items: map<string, string>, chosen: string)
    ensures chosen != "" ==> Restored(items[LanguageKey := chosen], "EN") == chosen
    ensures chosen == "" ==> Restored(items[LanguageKey := chosen], "EN") == "EN"
  {
  }

  /** Any non-empty stored value is restored, even one that is neither
      "EN" nor "GR". */
  lemma RestoreIsUnchecked()
    ensures Restored(map[LanguageKey := "FR"], "EN") == "FR"
  {
  }

  /** The initial consent: only in a browser, and any non-empty stored
      value counts, even "false". */
  function InitiallyAccepted(hasWindow: bool, items: map<string, string>): (accepted: bool)
    ensures accepted <==> hasWindow && ConsentKey in items && items[ConsentKey] != ""
  {
    hasWindow && Truthy(Get(items, ConsentKey))
  }

  lemma FalseCountsAsAccepted()
    ensures InitiallyAccepted(true, map[ConsentKey := "false"])
    ensures !InitiallyAccepted(false, map[ConsentKey := "true"])
  {
  }

  /** The storage after accepting. */
  function AfterAccept(items: map<string, string>): (after: map<string, string>)
    ensures after.Keys == items.Keys + {ConsentKey}
    ensures after[ConsentKey] == "true"
    ensures forall k :: k in items && k != ConsentKey ==> after[k] == items[k]
  {
    items[ConsentKey := "true"]
  }

  /** Accepting twice leaves the same storage as accepting once, and the
      consent found there on the next visit holds. */
  lemma AcceptIdempotent(items: map<string, string>)
    ensures AfterAccept(AfterAccept(items)) == AfterAccept(items)
    ensures InitiallyAccepted(true, AfterAccept(items))
  {
  }

  /** The cookie banner. */
  class CookieBanner {
    var isAccepted: bool
    const storage: Storage

    constructor(hasWindow: bool, storage: Storage)
      ensures isAccepted == InitiallyAccepted(hasWindow, storage.items)
      ensures this.storage == storage
    {
      this.storage := storage;
      if hasWindow {
        var stored := storage.GetItem(ConsentKey);
        isAccepted := Truthy(stored);
      } else {
        isAccepted := false;
      }
    }

    /** `acceptCookies` */
    method AcceptCookies()
      modifies this, storage
      ensures isAccepted && !Renders()
      ensures storage.items == AfterAccept(old(storage.items))
    {
      storage.SetItem(ConsentKey, "true");
      isAccepted := true;
    }

    /** The banner shows exactly while consent is missing. */
    predicate Renders()
      reads this
    {
      !isAccepted
    }
  }
}
