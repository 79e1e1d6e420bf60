/**
 * The decision `determineLanguage` makes, as a function of the request and of
 * the language stored in the session: first match wins among the query
 * parameter, the body parameter, the session, the `Accept-Language` header and
 * the default. The class in module LanguageManagement carries it out.
 */
module Resolution {
  import opened Wrappers
  import opened AcceptLanguage
  import opened PhpStrings

  /** What one request offers. `None` is an absent entry; a parameter sent as an
      array never matches the allow-list, so it behaves as `None`. */
  datatype Request = Request(
    queryLang: Option<string>,      // $_GET['lang']
    bodyLang: Option<string>,       // $_POST['lang']
    acceptLanguage: Option<string>, // $_SERVER['HTTP_ACCEPT_LANGUAGE']
    page: Option<string>,           // $_GET['page']
    https: Option<string>,          // $_SERVER['HTTPS']
    host: Option<string>)           // $_SERVER['HTTP_HOST']

  /** Which rule of the chain decided. */
  datatype Signal = Query | Body | Stored | Header | Fallback

  datatype Resolution = Resolution(language: string, signal: Signal) {
    /** Every rule but the session rule writes the result back to the session. */
    predicate WritesSession()
    {
      signal != Stored
    }
  }

  function Resolve(req: Request, stored: Option<string>): (r: Resolution)
    ensures r.language in Available
    ensures r.signal == Stored ==> stored == Some(r.language)
  {
    if IsAllowed(req.queryLang) then Resolution(req.queryLang.value, Query)
    else if IsAllowed(req.bodyLang) then Resolution(req.bodyLang.value, Body)
    else if IsAllowed(stored) then Resolution(stored.value, Stored)
    else match HeaderLanguage(req.acceptLanguage)
      case Some(lang) => Resolution(lang, Header)
      case None => Resolution(Default, Fallback)
  }

  /** A valid query `lang` wins over every other signal and is written to the session. */
  lemma QueryWins(req: Request, stored: Option<string>)
    requires IsAllowed(req.queryLang)
    ensures Resolve(req, stored).language == req.queryLang.value
    ensures Resolve(req, stored).WritesSession()
  {
  }

  /** A valid body `lang` wins whenever the query `lang` is absent or invalid. */
  lemma BodyWinsWithoutQuery(req: Request, stored: Option<string>)
    requires !IsAllowed(req.queryLang) && IsAllowed(req.bodyLang)
    ensures Resolve(req, stored).language == req.bodyLang.value
    ensures Resolve(req, stored).WritesSession()
  {
  }

  /** The session decides exactly when neither parameter is valid and it holds an allowed code;
      it is then left as it was. */
  lemma StoredOnlyWithoutParameters(req: Request, stored: Option<string>)
    ensures Resolve(req, stored).signal == Stored
        <==> !IsAllowed(req.queryLang) && !IsAllowed(req.bodyLang) && IsAllowed(stored)
    ensures !Resolve(req, stored).WritesSession() ==> Some(Resolve(req, stored).language) == stored
  {
  }

  /** A candidate that is not on the allow-list is skipped: removing it changes nothing. */
  lemma InvalidCandidatesIgnored(req: Request, stored: Option<string>)
    ensures !IsAllowed(req.queryLang) ==> Resolve(req, stored) == Resolve(req.(queryLang := None), stored)
    ensures !IsAllowed(req.bodyLang) ==> Resolve(req, stored) == Resolve(req.(bodyLang := None), stored)
    ensures !IsAllowed(stored) ==> Resolve(req, stored) == Resolve(req, None)
  {
  }

  /** With no valid parameter or session value, the header's first allowed entry in header
      order is chosen and written to the session. */
  lemma HeaderFirstMatch(req: Request, stored: Option<string>, i: nat)
    requires !IsAllowed(req.queryLang) && !IsAllowed(req.bodyLang) && !IsAllowed(stored)
    requires req.acceptLanguage.Some?
    requires var tags := AcceptedTags(req.acceptLanguage.value);
      i < |tags| && tags[i] in Available && forall j :: 0 <= j < i ==> tags[j] !in Available
    ensures Resolve(req, stored) == Resolution(AcceptedTags(req.acceptLanguage.value)[i], Header)
  {
    FirstAvailableAt(AcceptedTags(req.acceptLanguage.value), i);
  }

  /** With no valid signal at all, including an absent header or one without an allowed
      entry, the default `fr` is chosen and written to the session. */
  lemma DefaultFallback(req: Request, stored: Option<string>)
    requires !IsAllowed(req.queryLang) && !IsAllowed(req.bodyLang) && !IsAllowed(stored)
    requires req.acceptLanguage.Some? ==>
      forall j :: 0 <= j < |AcceptedTags(req.acceptLanguage.value)| ==> AcceptedTags(req.acceptLanguage.value)[j] !in Available
    ensures Resolve(req, stored) == Resolution(Default, Fallback)
    ensures Resolve(req, stored).WritesSession()
  {
    if req.acceptLanguage.Some? {
      FirstAvailableNone(AcceptedTags(req.acceptLanguage.value));
    }
  }

  /** The first entry of a header decides when its code is allowed, whatever follows it:
      with `ja-JP,fr;q=0.8` and no other signal, `ja` is chosen although `fr` is the default. */
  lemma FirstEntryDecides(req: Request, stored: Option<string>, first: string, rest: string)
    requires !IsAllowed(req.queryLang) && !IsAllowed(req.bodyLang) && !IsAllowed(stored)
    requires ',' !in first && PrimaryTag(first) in Available
    requires req.acceptLanguage == Some(first + [','] + rest)
    ensures Resolve(req, stored) == Resolution(PrimaryTag(first), Header)
  {
    AcceptedTagsExtend(first, rest);
    ExplodeWithoutSeparator(',', first);
    FirstAvailableAt(AcceptedTags(req.acceptLanguage.value), 0);
  }
}
