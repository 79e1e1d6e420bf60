# Portfolio language manager and image endpoint, in Dafny

This project models the two pieces of logic in a multilingual PHP portfolio site.

The first is the `LanguageManager` class of the entry page (`api/index.php`). It does four things:

- It picks the request's language by a first-match-wins chain: the query `lang`, the body `lang`, the session, the `Accept-Language` header, and then the default `fr`. Every candidate is checked against the allow-list `fr en ja ru pt zh el ar`. Each rule except the session rule writes its result to the session.
- It looks up dotted keys such as `home.title` in the decoded translation dictionary. A key that does not resolve gives the sentinel `Missing translation: <key>`.
- It returns per-language sections, with a fallback to the default language and then to an empty array.
- It builds page/language URLs and the alternate-language `<link>` tags.

The second is the image endpoint (`api/image-server.php`). It cleans the client-supplied file name (`basename`, then every character outside `[a-zA-Z0-9._-]` is deleted). It then answers 400, 404, 304 or serves the file. The 304 test compares `If-None-Match` exactly with the quoted content hash.

Modules:

- `Wrappers`: `Option`.
- `PhpStrings`: the PHP builtins the core relies on: `explode` with a one-character separator (with `implode` as its inverse), `trim`, `substr($s, 0, n)` and `strtolower`. A PHP string is a byte string; each `char` here stands for one byte.
- `Translation`: the decoded JSON value (`Node`), one `isset`/index step (`Child`), the path walk (`Lookup`), and the decimal segments that reach list elements.
- `AcceptLanguage`: the allow-list, the code each header entry yields (`PrimaryTag`), and the first allowed code in header order (`FirstAvailable`).
- `Resolution`: the request (`Request`) and the decision `determineLanguage` makes (`Resolve`), together with its precedence lemmas.
- `Urls`: the `?page=…&lang=…` query and a reader for it, the alternate-language tags, and `getBaseUrl`.
- `LanguageManagement`: the `Session` cell holding `$_SESSION['language']`, and the class `LanguageManager`. The class methods change state step by step as the PHP methods do. `DetermineLanguage` assigns the current language and the session, and returns early. `ParseAcceptLanguage`, `GetText` and `GenerateAlternateLinks` are loops. Each is proved against the functions of the modules above.
- `ImageServer`: the name cleaning and the endpoint's decision (`ServeImage`, with the same early exits as the script).

Inputs that PHP reads from globals or from the file system are explicit values:

- `$_GET`, `$_POST` and `$_SERVER` are a `Request`.
- `$_SESSION['language']` is a `Session` object.
- The decoded dictionary is a `map<string, Node>`.
- The public directory is a map from file name to content hash.

Three points where the code's behaviour is easy to misread:

- `parseAcceptLanguage` trims the whole entry before it cuts at `;`. So `a ;q=0.5` yields `a ` (with the space), not `a`. `QualityIgnored` states exactly when a quality suffix makes no difference.
- `getText` returns whatever node it reaches: a string, a list or a subtree.
- The fallbacks use PHP's `??` and `?:`. A null tree counts as absent, and `""` or `"0"` count as no language or no page.

## Model

| member | source | states |
|---|---|---|
| PhpStrings.Explode | api/index.php:69 | `explode` never returns an empty array: every header, key and `;`-entry has at least one piece |
| PhpStrings.ExplodePieces | api/index.php:69 | no piece of an exploded string contains the separator |
| PhpStrings.JoinExplode | api/index.php:69 | gluing the pieces back with the separator gives the original string |
| PhpStrings.ExplodeJoin | api/index.php:93 | exploding joined pieces that hold no separator gives back the pieces |
| PhpStrings.ExplodeAppend | api/index.php:69 | a separator splits the pieces into those of the text before it followed by those of the text after it |
| PhpStrings.ExplodeWithoutSeparator | api/index.php:73 | a string without the separator is a single piece |
| PhpStrings.ExplodeLength | api/index.php:69 | there is exactly one more piece than there are separators |
| PhpStrings.ExplodeFirst | api/index.php:73 | the first piece is the text before the first separator |
| PhpStrings.TrimLeft | api/index.php:72 | leading `trim` removes exactly the leading blanks (space, tab, LF, CR, NUL, VT) and leaves a suffix starting with a non-blank |
| PhpStrings.TrimRight | api/index.php:72 | trailing `trim` removes exactly the trailing blanks and leaves a prefix ending with a non-blank |
| PhpStrings.Trim | api/index.php:72 | `trim` leaves no blank at either end and is no longer than its input |
| PhpStrings.TrimIsSlice | api/index.php:72 | `trim` keeps one contiguous slice of its input, and only blanks lie before and after it |
| PhpStrings.Prefix | api/index.php:74 | `substr($s, 0, n)` is a prefix of at most n characters, the whole string when shorter |
| PhpStrings.LowerChar | api/index.php:74 | `strtolower` maps A-Z to a-z and leaves every other byte alone |
| PhpStrings.Lower | api/index.php:74 | `strtolower` keeps the length and lowers each character independently |
| Translation.MissingTranslation | api/index.php:100 | the sentinel is a string: exactly `Missing translation: ` followed by the key |
| Translation.DecimalRoundTrip | api/index.php:97 | every list position n has a canonical decimal segment, which PHP reads back as n |
| Translation.Child | api/index.php:97-98 | one step succeeds only on an array and never yields null; on an object it succeeds exactly when the key is present with a non-null value, and yields that value |
| Translation.ListChild | api/index.php:97-98 | a non-null list element is reached by its decimal position (e.g. `subtitles.0`) |
| Translation.Lookup | api/index.php:96-102 | walking an empty path stays put; a walk that succeeds over at least one segment never ends at null |
| Translation.LookupAppend | api/index.php:96-102 | walking `a + b` equals walking `a` and then `b` from where it ended |
| Translation.MissIsFinal | api/index.php:99-100 | a miss at any depth makes every longer key miss too |
| Translation.LookupNest | api/index.php:96-104 | any non-null value stored under nested keys is found by walking those keys |
| Translation.DottedKeyFindsNestedEntry | api/index.php:93-104 | the dotted key spelled from a dot-free path walks exactly that path and finds the stored value |
| AcceptLanguage.PrimaryTag | api/index.php:72-74 | an entry yields the lowered start of the trimmed entry before any `;`: two characters whenever there are two, fewer only when the trimmed entry or its part before `;` is shorter; never upper-case |
| AcceptLanguage.AcceptedTags | api/index.php:66-79 | the parse yields exactly one code per comma-separated entry (one more than the commas), so no entry is dropped or merged |
| AcceptLanguage.BlankEntryYieldsEmpty | api/index.php:72-75 | an empty or all-blank entry yields the empty code, and the parse goes on |
| AcceptLanguage.QualityIgnored | api/index.php:73-74 | a `;q=…` suffix on a trimmed entry without `;` does not change its code |
| AcceptLanguage.PlainEntry | api/index.php:72-74 | an entry with no blank at either end and no `;` yields its first two characters, lowered |
| AcceptLanguage.RegionSubtagIgnored | api/index.php:72-74 | a region subtag is cut off: a two-letter lower-case code followed by `-` and a region yields the code itself |
| AcceptLanguage.AcceptedTagsExtend | api/index.php:69-76 | extending a header with `,` and more entries appends their codes after the header's own |
| AcceptLanguage.FirstAvailable | api/index.php:52-58 | a chosen code is on the allow-list and occurs among the parsed codes |
| AcceptLanguage.FirstAvailableAt | api/index.php:52-58 | an allowed code preceded only by disallowed ones is the one chosen |
| AcceptLanguage.FirstAvailableNone | api/index.php:52-59 | nothing is chosen exactly when no parsed code is on the allow-list |
| AcceptLanguage.FirstAvailableAppend | api/index.php:52-58 | once a code is chosen, later codes have no effect |
| AcceptLanguage.HeaderLanguage | api/index.php:50-59 | a language chosen from the header needs a header, comes from its parsed codes and is on the allow-list |
| AcceptLanguage.LaterEntriesIgnored | api/index.php:52-58 | entries after the first allowed one never change the language chosen from the header |
| AcceptLanguage.EveryLanguageNegotiable | api/index.php:9 | every allow-listed code parses to itself, so each language can be selected by the header alone |
| Resolution.Resolve | api/index.php:27-64 | the resolved language is always on the allow-list, and when the session decided it is the stored value |
| Resolution.QueryWins | api/index.php:30-34 | a valid query `lang` wins over body, session and header, and is written to the session |
| Resolution.BodyWinsWithoutQuery | api/index.php:37-41 | a valid body `lang` wins whenever the query `lang` is absent or invalid, and is written to the session |
| Resolution.StoredOnlyWithoutParameters | api/index.php:44-47 | the session decides exactly when neither parameter is valid and it holds an allowed code, and it is then left as it was |
| Resolution.InvalidCandidatesIgnored | api/index.php:30-47 | a query, body or session value off the allow-list is skipped: removing it changes nothing |
| Resolution.HeaderFirstMatch | api/index.php:50-58 | with no valid parameter or session value, the first allowed header code in header order is chosen and written to the session |
| Resolution.DefaultFallback | api/index.php:61-63 | with no valid signal at all, including an absent header or one with no allowed entry, `fr` is chosen and written to the session |
| Resolution.FirstEntryDecides | api/index.php:50-58 | when the first header entry yields an allowed code it is chosen whatever follows, e.g. `ja` for `ja-JP,fr;q=0.8` although `fr` is the default |
| Urls.LanguageQueryRoundTrip | api/index.php:136 | the page and language are read back from the generated query when neither holds `&` |
| Urls.LanguageQuery | api/index.php:126 | the query is `?page=`, the page, `&lang=` and the language, in that order and nothing else |
| Urls.BaseUrl | api/index.php:139-144 | the scheme is `https` exactly when `HTTPS` is `on` (otherwise `http`), followed by `://` and the host |
| Urls.AlternateLinkAt | api/index.php:119-131 | exactly one tag per language, in list order: the tag for the i-th language immediately follows those of the earlier ones |
| Urls.AlternateLinksAppend | api/index.php:122-128 | the tags for two runs of languages are those of the first run followed by those of the second |
| Urls.AlternateLink | api/index.php:126-127 | a tag is `<link rel="alternate" hreflang="`, the language, `" href="`, the base URL and the language query, then `">`, a newline and four spaces |
| Urls.AlternateLinks | api/index.php:123-128 | the tag text is empty exactly when there are no languages |
| Urls.AlternateLinksSnoc | api/index.php:125-128 | one more loop step appends exactly the next language's tag |
| LanguageManagement.Session.constructor | api/index.php:2 | a session starts with the language it was given |
| LanguageManagement.LanguageManager.constructor | api/index.php:11-15 | building the manager stores the dictionary and resolves the language as `Resolve` decides, updating the session unless the session decided |
| LanguageManagement.LanguageManager.DetermineLanguage | api/index.php:27-64 | sets the current language to `Resolve`'s choice on the old session value; writes it to the session on every rule but the session rule, which leaves the session unchanged |
| LanguageManagement.LanguageManager.ParseAcceptLanguage | api/index.php:66-79 | the loop returns exactly the codes of the header's entries, one per entry, in order |
| LanguageManagement.LanguageManager.CurrentLanguage | api/index.php:81-84 | the current language is on the allow-list |
| LanguageManagement.LanguageManager.AvailableLanguages | api/index.php:86-89 | the offered languages are exactly those the resolution accepts, without repetition, default included |
| LanguageManagement.LanguageManager.Root | api/index.php:94 | the walked tree is null exactly when the current language has no tree; when it has one, it is the very tree `getLanguageData()` returns |
| LanguageManagement.LanguageManager.GetText | api/index.php:91-105 | returns the node the dotted key reaches when every segment resolves, else exactly `Missing translation: <key>`; never null; reads the dictionary without writing it |
| LanguageManagement.LanguageManager.LanguageData | api/index.php:107-111 | returns the requested language's tree (the current one for a falsy argument); falls back to `fr`'s tree and then to an empty array; never null |
| LanguageManagement.LanguageManager.CurrentPage | api/index.php:113-117 | the page is always one of the five; a listed `page` parameter is kept, and any other page than `home` came from the parameter |
| LanguageManagement.LanguageManager.GenerateLanguageUrl | api/index.php:133-137 | the URL names the given page (the current page when falsy) and the language, and both are read back from it when neither holds `&`, as with every allow-listed code the page template passes (api/index.php:288, 352) |
| LanguageManagement.LanguageManager.GenerateAlternateLinks | api/index.php:119-131 | the loop emits the alternate-language tags of all available languages, in allow-list order, for the current page and base URL |
| ImageServer.StripTrailingSlashes | api/image-server.php:6 | drops exactly the trailing `/`s and leaves a prefix not ending in `/` |
| ImageServer.LastComponent | api/image-server.php:6 | the text after the last `/`: a suffix with no `/`, preceded by a `/` when shorter than the input |
| ImageServer.Basename | api/image-server.php:6 | the base name contains no `/`, and it is empty exactly when the path is empty or only slashes |
| ImageServer.BasenameOfPath | api/image-server.php:6 | the base name of `dir/name`, with or without trailing slashes, is `name` |
| ImageServer.KeepSafe | api/image-server.php:7 | the filtered name has only ASCII letters, digits, `.`, `_` and `-`, and is no longer than its input |
| ImageServer.KeepSafeAppend | api/image-server.php:7 | the filter works character by character: it distributes over concatenation |
| ImageServer.KeepSafeUnchanged | api/image-server.php:7 | the filter leaves a string unchanged exactly when all its characters are allowed |
| ImageServer.KeepSafeIdempotent | api/image-server.php:7 | filtering a second time changes nothing |
| ImageServer.KeepSafeIsSubsequence | api/image-server.php:7 | the filter only deletes: the kept characters keep their order |
| ImageServer.CleanSingleSafe | api/image-server.php:6-7 | a single allowed character, `0` included, survives the cleaning unchanged |
| ImageServer.CleanName | api/image-server.php:3-7 | the cleaned name has no `/` and only allowed characters |
| ImageServer.ETag | api/image-server.php:32 | the entity tag is the content hash between two double quotes |
| ImageServer.Response.Status | api/image-server.php:10-36 | the script answers 400, 404, 304 or 200, and 200 exactly when it serves the file |
| ImageServer.Response.Message | api/image-server.php:11-37 | only the 400 and 404 answers carry a text body |
| ImageServer.ServeImage | api/image-server.php:3-41 | 400 `Image name required` exactly when the cleaned name is empty or `0` (always for a missing `img` or `0`); else 404 `Image not found` exactly when the file is absent; else 304 with no body exactly when `If-None-Match` equals the quoted hash; otherwise 200, serving `public/<name>` with that ETag |
| ImageServer.ServedPathIsOneComponent | api/image-server.php:14 | the served path is the public directory followed by one component of allowed characters |
| ImageServer.OnlyExactTagMatches | api/image-server.php:32-35 | for an md5 hex digest, `*`, a weak tag `W/…` or any header holding a `,` (a tag list, even one that names the exact tag) never yields 304 |

## Left out

- `loadLanguages` (api/index.php:17-25) reads a file and calls `json_decode`. The model takes the decoded dictionary as an input. A missing file or invalid JSON (a fatal configuration error) is not modelled.
- LanguageManagement.LanguageManager.GetText: PHP's `isset($str[$k])` also succeeds on a string leaf for an integer-like segment, and then yields one character. The model treats strings as leaves, so such a key is a miss here. The site's keys never descend into a string.
- Translation.Child: integer-like keys of JSON objects are normalised by PHP both when decoding and when looking up, so exact string matching is equivalent. JSON numbers are `real`s, and they matter only as leaves that cannot be descended into.
- PhpStrings.LowerChar: models the ASCII-only `strtolower` of PHP 8.2 and later. Locale-dependent lower-casing in older PHP versions is not modelled.
- Multibyte text: PHP counts bytes, and the model treats each `char` as one byte. `substr($s, 0, 2)` may split a UTF-8 sequence in PHP; the model does not show that.
- Array-valued request parameters are left out. For `lang` and `page` they behave like absent values, because `in_array` never matches them. For `img`, PHP 8 raises a type error, which is not modelled.
- Session values that are not strings are left out. For example, PHP's loose comparison matches `true` against `fr`. The model's session holds an optional string, and only this code writes it.
- Session persistence across requests and concurrent requests from one client are left out. This belongs to the session layer. The model has one explicit session cell.
- PHP warnings on undefined indexes are not modelled; only the values PHP goes on with are.
- `getBaseUrl` is modelled as `Urls.BaseUrl` over the `HTTPS` and `Host` inputs. An absent host reads as the empty string.
- In the image endpoint, `file_exists` and `md5_file` become the `files` input (name to content hash). The hashes there are arbitrary strings; only `ImageServer.OnlyExactTagMatches` relies on the shape `md5_file` gives them, 32 lower-case hexadecimal digits. MIME detection, the `Content-Type`, `Cache-Control`, `Expires` and `Last-Modified` headers, and `readfile` are I/O and are left out.
- `.` and `..` survive the cleaning and name directories, which `file_exists` reports as existing. The model takes existence from `files`. A failing `md5_file` (an ETag of `""`) is not modelled.
- ImageServer.Basename: uses `/` as the only separator, as PHP does on Unix. Windows separators are not modelled.
- The HTML template and the in-page JavaScript of api/index.php are not part of this model. Neither are api/og-image.php (image resampling through GD), api/css.php, api/schema-languages.php and api/jarvys-image.php (file passthroughs with fixed headers).
