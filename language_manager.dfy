/**
 * The `LanguageManager` of the portfolio's entry page: it resolves the
 * request's language once, when built, and then answers text, section, page
 * and link queries for the page template.
 */
module LanguageManagement {
  import opened Wrappers
  import opened PhpStrings
  import opened Translation
  import opened AcceptLanguage
  import opened Resolution
  import opened Urls

  /** The pages `getCurrentPage` accepts. */
  const Pages: seq<string> := ["home", "projects", "contact", "experiences", "education"]

  /** PHP truthiness of an optional string: null, `""` and `"0"` are false. */
  predicate IsFalsy(s: Option<string>)
  {
    s.None? || s.value == "" || s.value == "0"
  }

  lemma TakeAll(s: seq<string>)
    ensures s[..|s|] == s
  {
  }

  /** The `$_SESSION['language']` entry of one client session. */
  class Session {
    var language: Option<string>

    constructor (language: Option<string>)
      ensures this.language == language
    {
      this.language := language;
    }
  }

  class LanguageManager {
    /** The decoded dictionary: language code to translation tree. It is never written after construction. */
    const languages: map<string, Node>
    /** The request's inputs (`$_GET`, `$_POST`, `$_SERVER`). */
    const request: Request
    /** The session the resolved language is persisted to. */
    const session: Session
    var currentLanguage: string

    ghost predicate Valid()
      reads this
    {
      currentLanguage in Available
    }

    /** Whether `code` has a non-null tree in the dictionary (`isset($this->languages[$code])`). */
    predicate Present(code: string)
    {
      code in languages && languages[code] != Null
    }

    /** Builds the manager over an already decoded dictionary and resolves the language. */
    constructor (languages: map<string, Node>, request: Request, session: Session)
      modifies session
      ensures Valid()
      ensures this.languages == languages && this.request == request && this.session == session
      ensures var r := Resolve(request, old(session.language));
        currentLanguage == r.language
        && session.language == if r.WritesSession() then Some(r.language) else old(session.language)
    {
      this.languages := languages;
      this.request := request;
      this.session := session;
      new;
      DetermineLanguage();
    }

    /** `determineLanguage`: sets the current language by the first signal that names an allowed
        code, and writes it to the session unless it came from the session. */
    method DetermineLanguage()
      modifies this, session
      ensures Valid()
      ensures var r := Resolve(request, old(session.language));
        currentLanguage == r.language
        && session.language == if r.WritesSession() then Some(r.language) else old(session.language)
    {
      ghost var r := Resolve(request, session.language);
      if IsAllowed(request.queryLang) {
        currentLanguage := request.queryLang.value;
        session.language := Some(currentLanguage);
        return;
      }
      if IsAllowed(request.bodyLang) {
        currentLanguage := request.bodyLang.value;
        session.language := Some(currentLanguage);
        return;
      }
      if IsAllowed(session.language) {
        currentLanguage := session.language.value;
        return;
      }
      ghost var negotiated := HeaderLanguage(request.acceptLanguage);
      assert r == Resolution(negotiated.GetOr(Default), if negotiated.Some? then Header else Fallback);
      if request.acceptLanguage.Some? {
        var accepted := ParseAcceptLanguage(request.acceptLanguage.value);
        assert negotiated == FirstAvailable(accepted);
        var i := 0;
        while i < |accepted|
          invariant i <= |accepted|
          invariant FirstAvailable(accepted[i..]) == FirstAvailable(accepted)
          invariant session.language == old(session.language)
        {
          if accepted[i] in Available {
            assert FirstAvailable(accepted[i..]) == Some(accepted[i]);
            currentLanguage := accepted[i];
            session.language := Some(currentLanguage);
            return;
          }
          assert FirstAvailable(accepted[i..]) == FirstAvailable(accepted[i..][1..]);
          assert accepted[i..][1..] == accepted[i + 1..];
          i := i + 1;
        }
      }
      currentLanguage := Default;
      session.language := Some(currentLanguage);
    }

    /** `parseAcceptLanguage`: one code per comma-separated entry, in header order. */
    method ParseAcceptLanguage(acceptLanguage: string) returns (accepted: seq<string>)
      ensures accepted == AcceptedTags(acceptLanguage)
    {
      accepted := [];
      var parts := Explode(',', acceptLanguage);
      for k := 0 to |parts|
        invariant |accepted| == k
        invariant forall j :: 0 <= j < k ==> accepted[j] == PrimaryTag(parts[j])
      {
        var part := Trim(parts[k]);
        var langParts := Explode(';', part);
        var lang := Lower(Prefix(langParts[0], 2));
        accepted := accepted + [lang];
      }
    }

    /** `getCurrentLanguage`. */
    function CurrentLanguage(): (lang: string)
      reads this
      requires Valid()
      ensures lang in Available
    {
      currentLanguage
    }

    /** `getAvailableLanguages`: the allow-list the resolution checks against, default included,
        without repetition. */
    function AvailableLanguages(): (langs: seq<string>)
      ensures Default in langs
      ensures forall i, j :: 0 <= i < j < |langs| ==> langs[i] != langs[j]
      ensures forall l :: l in langs <==> IsAllowed(Some(l))
    {
      Available
    }

    /** The tree `getText` walks: `$this->languages[$this->currentLanguage]`, null when absent.
        Whenever it is there, it is the very tree `getLanguageData()` returns. */
    function Root(): (tree: Node)
      reads this
      ensures tree != Null <==> Present(currentLanguage)
      ensures Present(currentLanguage) ==> tree == LanguageData(None)
    {
      if currentLanguage in languages then languages[currentLanguage] else Null
    }

    /** `getText`: the node at the dotted `key` in the current language's tree, or the
        sentinel `Missing translation: <key>` as soon as a segment is missing. */
    method GetText(key: string) returns (text: Node)
      ensures var found := Lookup(Root(), Explode('.', key));
        (found.Some? ==> text == found.value) && (found.None? ==> text == MissingTranslation(key))
      ensures text != Null
    {
      var keys := Explode('.', key);
      text := Root();
      for i := 0 to |keys|
        invariant Lookup(Root(), keys) == Lookup(text, keys[i..])
      {
        var child := Child(text, keys[i]);
        if child.None? {
          return MissingTranslation(key);
        }
        assert keys[i..][1..] == keys[i + 1..];
        text := child.value;
      }
    }

    /** `getLanguageData`: the tree of `lang` (of the current language when `lang` is falsy),
        else that of the default language, else an empty array. Never null. */
    function LanguageData(lang: Option<string>): (tree: Node)
      reads this
      ensures tree != Null
      ensures var code := if IsFalsy(lang) then currentLanguage else lang.value;
        && (Present(code) ==> tree == languages[code])
        && (!Present(code) && Present(Default) ==> tree == languages[Default])
        && (!Present(code) && !Present(Default) ==> tree == Dict(map[]))
    {
      var code := if IsFalsy(lang) then currentLanguage else lang.value;
      if Present(code) then languages[code]
      else if Present(Default) then languages[Default]
      else Dict(map[])
    }

    /** `getCurrentPage`: the `page` parameter when it names one of the five pages, else `home`. */
    function CurrentPage(): (page: string)
      ensures page in Pages
      ensures request.page.Some? && request.page.value in Pages ==> page == request.page.value
      ensures page != "home" ==> request.page == Some(page)
    {
      var page := request.page.GetOr("home");
      if page in Pages then page else "home"
    }

    /** `generateLanguageUrl`: a query naming `page` (the current page when `page` is falsy)
        and `lang`, from which both can be read back. */
    function GenerateLanguageUrl(lang: string, page: Option<string>): (url: string)
      ensures var p := if IsFalsy(page) then CurrentPage() else page.value;
        '&' !in lang && '&' !in p ==> ParseLanguageQuery(url) == Some((p, lang))
    {
      var p := if IsFalsy(page) then CurrentPage() else page.value;
      assert '&' !in lang && '&' !in p ==> ParseLanguageQuery(LanguageQuery(p, lang)) == Some((p, lang)) by {
        if '&' !in lang && '&' !in p {
          LanguageQueryRoundTrip(p, lang);
        }
      }
      LanguageQuery(p, lang)
    }

    /** `generateAlternateLinks`: one alternate-language tag per available language, in
        allow-list order, each pointing at the current page in that language. */
    method GenerateAlternateLinks() returns (links: string)
      ensures links == AlternateLinks(BaseUrl(request.https, request.host), CurrentPage(), Available)
    {
      var currentPage := CurrentPage();
      var baseUrl := BaseUrl(request.https, request.host);
      links := "";
      for i := 0 to |Available|
        invariant links == AlternateLinks(baseUrl, currentPage, Available[..i])
      {
        var lang := Available[i];
        AlternateLinksSnoc(baseUrl, currentPage, Available, i);
        links := links + AlternateLink(baseUrl, currentPage, lang);
      }
      TakeAll(Available);
    }
  }
}
