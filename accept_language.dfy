/**
 * The fixed allow-list of the language manager and the reading of an
 * `Accept-Language` header into candidate codes (`parseAcceptLanguage`).
 * This is a simplified reading of section 5.3.5 of RFC 7231: only the first
 * two characters of each entry are kept, and quality values are ignored.
 */
module AcceptLanguage {
  import opened Wrappers
  import opened PhpStrings

  /** `$availableLanguages`, in the order the site offers them. */
  const Available: seq<string> := ["fr", "en", "ja", "ru", "pt", "zh", "el", "ar"]

  /** `$defaultLanguage`. */
  const Default: string := "fr"

  /** `isset($v) && in_array($v, $availableLanguages)`. The list holds no numeric
      strings, so PHP's loose comparison is plain string equality here. */
  predicate IsAllowed(candidate: Option<string>)
  {
    candidate.Some? && candidate.value in Available
  }

  /** The code one comma-separated entry yields:
      `strtolower(substr(explode(';', trim($part))[0], 0, 2))`. */
  function PrimaryTag(part: string): (tag: string)
    ensures |tag| <= 2
    ensures forall i :: 0 <= i < |tag| ==> !IsUpper(tag[i])
    ensures var t := Trim(part); |tag| <= |t| && tag == Lower(t[..|tag|]) && ';' !in t[..|tag|]
    ensures var t := Trim(part); |tag| < 2 ==> |tag| == |t| || t[|tag|] == ';'
  {
    var t := Trim(part);
    ExplodeFirst(';', t);
    CutAndLower(t, Explode(';', t)[0]);
    Lower(Prefix(Explode(';', t)[0], 2))
  }

  /** Cutting `t` before its first `;`, keeping two characters and lowering them. */
  lemma CutAndLower(t: string, before: string)
    requires |before| <= |t| && before == t[..|before|] && ';' !in before
    requires |before| < |t| ==> t[|before|] == ';'
    ensures var tag := Lower(Prefix(before, 2));
      && |tag| <= 2 && (forall i :: 0 <= i < |tag| ==> !IsUpper(tag[i]))
      && |tag| <= |t| && tag == Lower(t[..|tag|]) && ';' !in t[..|tag|]
      && (|tag| < 2 ==> |tag| == |t| || t[|tag|] == ';')
  {
    var p := Prefix(before, 2);
    assert p == t[..|p|];
  }

  /** The codes of a sequence of entries, one per entry, in order. */
  function Tags(parts: seq<string>): (tags: seq<string>)
    ensures |tags| == |parts|
    ensures forall i :: 0 <= i < |parts| ==> tags[i] == PrimaryTag(parts[i])
  {
    seq(|parts|, i requires 0 <= i < |parts| => PrimaryTag(parts[i]))
  }

  /** What `parseAcceptLanguage` returns for a header value: one code per comma-separated
      entry, so no entry is dropped or merged. */
  function AcceptedTags(header: string): (tags: seq<string>)
    ensures |tags| == Occurrences(',', header) + 1
  {
    ExplodeLength(',', header);
    Tags(Explode(',', header))
  }

  /** An entry of blanks only (an empty entry included) yields the empty code. */
  lemma BlankEntryYieldsEmpty(part: string)
    requires forall i :: 0 <= i < |part| ==> IsBlank(part[i])
    ensures PrimaryTag(part) == ""
  {
    assert TrimLeft(part) == [];
  }

  /** Quality parameters are ignored: a `;`-suffix leaves the code of a trimmed entry unchanged. */
  lemma QualityIgnored(tag: string, params: string)
    requires ';' !in tag
    requires tag != [] ==> !IsBlank(tag[0]) && !IsBlank(tag[|tag| - 1])
    ensures PrimaryTag(tag + [';'] + params) == PrimaryTag(tag)
  {
    var s := tag + [';'] + params;
    assert s[..|tag|] == tag && s[|tag|] == ';';
    assert TrimLeft(s) == s by {
      assert s[0] == if tag == [] then ';' else tag[0];
    }
    var t := TrimRight(s);
    assert Trim(s) == t;
    assert |t| > |tag| by {
      assert !IsBlank(s[|tag|]);
    }
    assert t[..|tag|] == tag && t[|tag|] == ';' by {
      assert t == s[..|t|];
    }
    FirstPieceIs(t, tag);
    assert Trim(tag) == tag by {
      assert TrimLeft(tag) == tag;
    }
    FirstPieceIs(tag, tag);
  }

  /** A `;`-free prefix of `t` that is all of `t` or stops at a `;` is its first `;`-piece. */
  lemma FirstPieceIs(t: string, first: string)
    requires |first| <= |t| && t[..|first|] == first && ';' !in first
    requires |first| == |t| || t[|first|] == ';'
    ensures Explode(';', t)[0] == first
  {
    ExplodeFirst(';', t);
  }

  /** A header that is extended by further entries keeps its own codes as a prefix. */
  lemma TagsAppend(a: seq<string>, b: seq<string>)
    ensures Tags(a + b) == Tags(a) + Tags(b)
  {
  }

  lemma AcceptedTagsExtend(header: string, more: string)
    ensures AcceptedTags(header + [','] + more) == AcceptedTags(header) + AcceptedTags(more)
  {
    ExplodeAppend(',', header, more);
    TagsAppend(Explode(',', header), Explode(',', more));
  }

  /** The first code in header order that is on the allow-list. */
  function FirstAvailable(tags: seq<string>): (r: Option<string>)
    ensures r.Some? ==> r.value in Available && r.value in tags
  {
    if tags == [] then None
    else if tags[0] in Available then Some(tags[0])
    else FirstAvailable(tags[1..])
  }

  /** An allowed code preceded only by codes off the list is the one chosen. */
  lemma {:induction false} FirstAvailableAt(tags: seq<string>, i: nat)
    requires i < |tags| && tags[i] in Available
    requires forall j :: 0 <= j < i ==> tags[j] !in Available
    ensures FirstAvailable(tags) == Some(tags[i])
  {
    if i > 0 {
      FirstAvailableAt(tags[1..], i - 1);
    }
  }

  /** Nothing is chosen exactly when no code is on the list. */
  lemma {:induction false} FirstAvailableNone(tags: seq<string>)
    ensures FirstAvailable(tags).None? <==> forall j :: 0 <= j < |tags| ==> tags[j] !in Available
  {
    if tags != [] {
      FirstAvailableNone(tags[1..]);
      assert forall j :: 1 <= j < |tags| ==> tags[j] == tags[1..][j - 1];
    }
  }

  /** Once a code is chosen, later codes have no effect. */
  lemma {:induction false} FirstAvailableAppend(a: seq<string>, b: seq<string>)
    requires FirstAvailable(a).Some?
    ensures FirstAvailable(a + b) == FirstAvailable(a)
  {
    assert (a + b)[0] == a[0];
    if a[0] !in Available {
      assert (a + b)[1..] == a[1..] + b;
      FirstAvailableAppend(a[1..], b);
    }
  }

  /** The language chosen from a header, if any (step 4 of the resolution). */
  function HeaderLanguage(header: Option<string>): (r: Option<string>)
    ensures r.Some? ==> header.Some? && r.value in AcceptedTags(header.value) && r.value in Available
  {
    if header.None? then None else FirstAvailable(AcceptedTags(header.value))
  }

  /** Entries after the first allowed one never change the choice. */
  lemma LaterEntriesIgnored(header: string, more: string)
    requires HeaderLanguage(Some(header)).Some?
    ensures HeaderLanguage(Some(header + [','] + more)) == HeaderLanguage(Some(header))
  {
    AcceptedTagsExtend(header, more);
    FirstAvailableAppend(AcceptedTags(header), AcceptedTags(more));
  }

  /** A code of two lower-case ASCII letters, the shape of every offered language. */
  predicate IsLowerCode(code: string)
  {
    |code| == 2 && 'a' <= code[0] <= 'z' && 'a' <= code[1] <= 'z'
  }

  lemma AvailableAreLowerCodes(lang: string)
    requires lang in Available
    ensures IsLowerCode(lang)
  {
  }

  lemma LowerCodeUnchanged(code: string)
    requires IsLowerCode(code)
    ensures Lower(code) == code
  {
    assert !IsUpper(code[0]) && !IsUpper(code[1]);
  }

  /** An entry with no blank at either end and no `;` yields its first two characters, lowered. */
  lemma PlainEntry(part: string)
    requires |part| >= 2 && !IsBlank(part[0]) && !IsBlank(part[|part| - 1]) && ';' !in part
    ensures PrimaryTag(part) == Lower(part[..2])
  {
    assert Trim(part) == part by {
      assert TrimLeft(part) == part;
    }
    ExplodeWithoutSeparator(';', part);
  }

  /** A region subtag is cut off: `ja-JP` yields `ja`; with `QualityIgnored`, so does `ja-JP;q=0.8`. */
  lemma RegionSubtagIgnored(lang: string, region: string)
    requires IsLowerCode(lang)
    requires ';' !in region
    requires region != [] ==> !IsBlank(region[|region| - 1])
    ensures PrimaryTag(lang + ['-'] + region) == lang
  {
    var s := lang + ['-'] + region;
    assert s[..2] == lang;
    assert !IsBlank(s[0]) && !IsBlank(s[|s| - 1]) by {
      assert s[0] == lang[0];
      assert s[|s| - 1] == if region == [] then '-' else region[|region| - 1];
    }
    assert ';' !in s by {
      forall i | 0 <= i < |s| ensures s[i] != ';' {
        assert s[i] == if i < 2 then lang[i] else if i == 2 then '-' else region[i - 3];
      }
    }
    PlainEntry(s);
    LowerCodeUnchanged(lang);
  }

  /** Every offered language can be negotiated: its own code parses to itself. */
  lemma EveryLanguageNegotiable(lang: string)
    requires lang in Available
    ensures PrimaryTag(lang) == lang && HeaderLanguage(Some(lang)) == Some(lang)
  {
    AvailableAreLowerCodes(lang);
    assert ';' !in lang && ',' !in lang;
    assert lang[..2] == lang;
    PlainEntry(lang);
    LowerCodeUnchanged(lang);
    ExplodeWithoutSeparator(',', lang);
  }
}
