/**
 * The links the language manager emits: the `?page=…&lang=…` query used by
 * `generateLanguageUrl` and `generateAlternateLinks`, the alternate-language
 * `<link>` tags, and `getBaseUrl`.
 */
module Urls {
  import opened Wrappers
  import opened PhpStrings

  /** `"?page=$page&lang=$lang"`. */
  function LanguageQuery(page: string, lang: string): (q: string)
    ensures |q| == |page| + |lang| + 12
    ensures q[..6] == "?page=" && q[6..6 + |page|] == page
    ensures q[6 + |page|..12 + |page|] == "&lang=" && q[12 + |page|..] == lang
  {
    "?page=" + page + "&lang=" + lang
  }

  /** Reads a query of that shape back into its page and language. */
  function ParseLanguageQuery(query: string): Option<(string, string)>
  {
    if |query| < 6 || query[..6] != "?page=" then None
    else
      var fields := Explode('&', query[6..]);
      if |fields| == 2 && |fields[1]| >= 5 && fields[1][..5] == "lang="
      then Some((fields[0], fields[1][5..]))
      else None
  }

  /** The query names its page and language so that they can be read back, as long as
      neither holds an `&`. */
  lemma LanguageQueryRoundTrip(page: string, lang: string)
    requires '&' !in page && '&' !in lang
    ensures ParseLanguageQuery(LanguageQuery(page, lang)) == Some((page, lang))
  {
    var q := LanguageQuery(page, lang);
    var tail := "lang=" + lang;
    assert q[..6] == "?page=";
    assert q[6..] == page + ['&'] + tail;
    assert '&' !in tail;
    ExplodeAppend('&', page, tail);
    ExplodeWithoutSeparator('&', page);
    ExplodeWithoutSeparator('&', tail);
    assert tail[..5] == "lang=" && tail[5..] == lang;
  }

  /** `getBaseUrl`: `https` only when `$_SERVER['HTTPS']` is exactly `on`; an absent host
      reads as the empty string. */
  function BaseUrl(https: Option<string>, host: Option<string>): (url: string)
    ensures |url| == (if https == Some("on") then 8 else 7) + |host.GetOr("")| && url[..4] == "http"
    ensures url[4] == 's' <==> https == Some("on")
    ensures url[|url| - |host.GetOr("")| - 3..] == "://" + host.GetOr("")
  {
    var scheme := if https == Some("on") then "https" else "http";
    var url := scheme + "://" + host.GetOr("");
    assert url[|scheme|..] == "://" + host.GetOr("");
    url
  }

  /** One alternate-language tag, with the layout whitespace the page template expects. */
  function AlternateLink(base: string, page: string, lang: string): (tag: string)
    ensures var head := "<link rel=\"alternate\" hreflang=\"" + lang + "\" href=\"";
      var url := base + LanguageQuery(page, lang);
      && |tag| == |head| + |url| + 7
      && tag[..|head|] == head
      && tag[|head|..|head| + |url|] == url
      && tag[|head| + |url|..] == "\">\n    "
  {
    "<link rel=\"alternate\" hreflang=\"" + lang + "\" href=\"" + base + LanguageQuery(page, lang) + "\">\n    "
  }

  /** The tags for `langs`, in order. */
  function AlternateLinks(base: string, page: string, langs: seq<string>): (links: string)
    ensures links == "" <==> langs == []
  {
    if langs == [] then "" else AlternateLink(base, page, langs[0]) + AlternateLinks(base, page, langs[1..])
  }

  lemma {:induction false} AlternateLinksAppend(base: string, page: string, a: seq<string>, b: seq<string>)
    ensures AlternateLinks(base, page, a + b) == AlternateLinks(base, page, a) + AlternateLinks(base, page, b)
  {
    if a == [] {
      assert a + b == b;
    } else {
      assert (a + b)[0] == a[0] && (a + b)[1..] == a[1..] + b;
      AlternateLinksAppend(base, page, a[1..], b);
    }
  }

  /** The tags for one more language of a list: those before it, then its own. */
  lemma AlternateLinksSnoc(base: string, page: string, langs: seq<string>, i: nat)
    requires i < |langs|
    ensures AlternateLinks(base, page, langs[..i + 1]) ==
      AlternateLinks(base, page, langs[..i]) + AlternateLink(base, page, langs[i])
  {
    assert langs[..i + 1] == langs[..i] + [langs[i]];
    AlternateLinksAppend(base, page, langs[..i], [langs[i]]);
  }

  /** Exactly one tag per language, in list order: the tag for `langs[i]` occupies the span
      that follows the tags of the languages before it. */
  lemma AlternateLinkAt(base: string, page: string, langs: seq<string>, i: nat)
    requires i < |langs|
    ensures var start := |AlternateLinks(base, page, langs[..i])|;
      var end := start + |AlternateLink(base, page, langs[i])|;
      end <= |AlternateLinks(base, page, langs)|
      && AlternateLinks(base, page, langs)[start..end] == AlternateLink(base, page, langs[i])
  {
    assert langs == langs[..i] + ([langs[i]] + langs[i + 1..]);
    AlternateLinksAppend(base, page, langs[..i], [langs[i]] + langs[i + 1..]);
    assert ([langs[i]] + langs[i + 1..])[1..] == langs[i + 1..];
  }
}
