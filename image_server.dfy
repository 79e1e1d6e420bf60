/**
 * The image endpoint of the site: it cleans the client-supplied file name,
 * rejects an empty one, looks the file up in the public directory and answers
 * a conditional GET by exact comparison of `If-None-Match` with the quoted
 * content hash (a simplification of section 3.2 of RFC 7232: no weak
 * comparison, no lists, no `*`).
 */
module ImageServer {
  import opened Wrappers

  /** The trailing-slash stripping inside `basename`: the path without its trailing slashes. */
  function StripTrailingSlashes(path: string): (r: string)
    ensures |r| <= |path| && r == path[..|r|]
    ensures r == [] || r[|r| - 1] != '/'
    ensures forall i :: |r| <= i < |path| ==> path[i] == '/'
  {
    if path != [] && path[|path| - 1] == '/' then StripTrailingSlashes(path[..|path| - 1]) else path
  }

  /** The text after the last `/` of `s`. */
  function LastComponent(s: string): (name: string)
    ensures '/' !in name
    ensures |name| <= |s| && name == s[|s| - |name|..]
    ensures |name| < |s| ==> s[|s| - |name| - 1] == '/'
  {
    if s == [] || s[|s| - 1] == '/' then []
    else
      var name := LastComponent(s[..|s| - 1]) + [s[|s| - 1]];
      assert '/' !in name by {
        forall i | 0 <= i < |name| ensures name[i] != '/' {
          if i < |name| - 1 { assert name[i] == LastComponent(s[..|s| - 1])[i]; }
        }
      }
      name
  }

  /** `basename($path)` with `/` as the only separator: the last component after
      trailing slashes are dropped. */
  function Basename(path: string): (name: string)
    ensures '/' !in name
    ensures name == [] <==> forall i :: 0 <= i < |path| ==> path[i] == '/'
  {
    var stripped := StripTrailingSlashes(path);
    assert stripped != [] ==> stripped[|stripped| - 1] != '/' && path[|stripped| - 1] == stripped[|stripped| - 1];
    LastComponent(stripped)
  }

  /** A name that follows a directory, with or without trailing slashes, is its basename. */
  lemma {:induction false} BasenameOfPath(dir: string, name: string, slashes: nat)
    requires name != [] && '/' !in name
    ensures Basename(dir + "/" + name + seq(slashes, _ => '/')) == name
  {
    var trail := seq(slashes, _ => '/');
    var p := dir + "/" + name + trail;
    StripAppended(dir + "/" + name, slashes);
    LastComponentOf(dir, name);
  }

  lemma {:induction false} StripAppended(s: string, slashes: nat)
    requires s != [] && s[|s| - 1] != '/'
    ensures StripTrailingSlashes(s + seq(slashes, _ => '/')) == s
    decreases slashes
  {
    if slashes > 0 {
      var t := s + seq(slashes, _ => '/');
      assert t[..|t| - 1] == s + seq(slashes - 1, _ => '/');
      StripAppended(s, slashes - 1);
    } else {
      assert s + seq(slashes, _ => '/') == s;
    }
  }

  lemma {:induction false} LastComponentOf(dir: string, name: string)
    requires '/' !in name
    ensures LastComponent(dir + "/" + name) == name
    decreases |name|
  {
    var s := dir + "/" + name;
    if name == [] {
      assert s[|s| - 1] == '/';
    } else {
      assert s[..|s| - 1] == dir + "/" + name[..|name| - 1];
      assert '/' !in name[..|name| - 1];
      LastComponentOf(dir, name[..|name| - 1]);
      assert name == name[..|name| - 1] + [name[|name| - 1]];
    }
  }

  /** Characters `[a-zA-Z0-9._-]` that the cleaning keeps. */
  predicate IsSafe(c: char)
  {
    'a' <= c <= 'z' || 'A' <= c <= 'Z' || '0' <= c <= '9' || c == '.' || c == '_' || c == '-'
  }

  /** `preg_replace('/[^a-zA-Z0-9._-]/', '', $s)`. */
  function KeepSafe(s: string): (r: string)
    ensures |r| <= |s|
    ensures forall i :: 0 <= i < |r| ==> IsSafe(r[i])
  {
    if s == [] then [] else (if IsSafe(s[0]) then [s[0]] else []) + KeepSafe(s[1..])
  }

  /** The filter works character by character: it distributes over concatenation. */
  lemma {:induction false} KeepSafeAppend(a: string, b: string)
    ensures KeepSafe(a + b) == KeepSafe(a) + KeepSafe(b)
  {
    if a == [] {
      assert a + b == b;
    } else {
      assert (a + b)[0] == a[0] && (a + b)[1..] == a[1..] + b;
      KeepSafeAppend(a[1..], b);
    }
  }

  /** A string is left unchanged exactly when all its characters are safe. */
  lemma {:induction false} KeepSafeUnchanged(s: string)
    ensures KeepSafe(s) == s <==> forall i :: 0 <= i < |s| ==> IsSafe(s[i])
  {
    if s != [] {
      KeepSafeUnchanged(s[1..]);
      if IsSafe(s[0]) {
        assert (forall i :: 0 <= i < |s| ==> IsSafe(s[i])) <==> (forall i :: 0 <= i < |s[1..]| ==> IsSafe(s[1..][i])) by {
          forall i | 0 <= i < |s[1..]| ensures s[1..][i] == s[i + 1] { }
          assert forall i :: 1 <= i < |s| ==> s[i] == s[1..][i - 1];
        }
        assert KeepSafe(s) == [s[0]] + KeepSafe(s[1..]);
        assert s == [s[0]] + s[1..];
      }
    }
  }

  /** Filtering twice changes nothing. */
  lemma KeepSafeIdempotent(s: string)
    ensures KeepSafe(KeepSafe(s)) == KeepSafe(s)
  {
    KeepSafeUnchanged(KeepSafe(s));
  }

  /** `a` is obtained from `b` by deleting characters. */
  predicate IsSubsequence(a: string, b: string)
    decreases |b|
  {
    a == [] || (b != [] && if a[0] == b[0] then IsSubsequence(a[1..], b[1..]) else IsSubsequence(a, b[1..]))
  }

  /** The filter only deletes: the kept characters stay in their order. */
  lemma {:induction false} KeepSafeIsSubsequence(s: string)
    ensures IsSubsequence(KeepSafe(s), s)
  {
    if s != [] {
      KeepSafeIsSubsequence(s[1..]);
      if IsSafe(s[0]) {
        assert KeepSafe(s)[1..] == KeepSafe(s[1..]);
      } else {
        var r := KeepSafe(s);
        assert r == KeepSafe(s[1..]);
        assert r != [] ==> IsSafe(r[0]) && r[0] != s[0];
      }
    }
  }

  /** Lines 6-7: the name that is looked up in the public directory. */
  function CleanName(img: string): (name: string)
    ensures '/' !in name
    ensures forall i :: 0 <= i < |name| ==> IsSafe(name[i])
    ensures name == KeepSafe(Basename(img))
  {
    KeepSafe(Basename(img))
  }

  /** A single safe character that is not `/` cleans to itself: the name `"0"` survives the cleaning. */
  lemma CleanSingleSafe(c: char)
    requires IsSafe(c)
    ensures CleanName([c]) == [c]
  {
    assert StripTrailingSlashes([c]) == [c];
    assert [c][..0] == [];
    assert LastComponent([c]) == [c];
    assert KeepSafe([c]) == [c] + KeepSafe([]);
  }

  /** PHP `empty` on a string: `""` and `"0"`. */
  predicate IsEmptyName(name: string)
  {
    name == "" || name == "0"
  }

  /** The directory served from, relative to the script. */
  const PublicDir: string := "/../public/"

  /** The entity tag: the file's content hash in double quotes. */
  function ETag(hash: string): (tag: string)
    ensures |tag| == |hash| + 2 && tag[0] == '"' && tag[|tag| - 1] == '"' && tag[1..|tag| - 1] == hash
  {
    "\"" + hash + "\""
  }

  datatype Response =
    | BadRequest                      // 400, body "Image name required"
    | NotFound                        // 404, body "Image not found"
    | NotModified(etag: string)       // 304, no body
    | Serve(path: string, etag: string) // the file at `path`, with its ETag
  {
    /** The HTTP status code the script answers with. */
    function Status(): (code: int)
      ensures code == 200 || code == 304 || code == 400 || code == 404
      ensures code == 200 <==> this.Serve?
    {
      match this
      case BadRequest => 400
      case NotFound => 404
      case NotModified(_) => 304
      case Serve(_, _) => 200
    }

    /** The body the script writes with `exit`; empty for 304, and the file itself is served
        separately for 200. */
    function Message(): (body: string)
      ensures body != "" <==> this.BadRequest? || this.NotFound?
    {
      match this
      case BadRequest => "Image name required"
      case NotFound => "Image not found"
      case _ => ""
    }
  }

  /** The endpoint. `img` is `$_GET['img']`, `files` maps each name present in the public
      directory to the hash of its content, `ifNoneMatch` is the request's `If-None-Match`. */
  method ServeImage(img: Option<string>, files: map<string, string>, ifNoneMatch: Option<string>)
    returns (response: Response)
    ensures var name := CleanName(img.GetOr(""));
      && (response.BadRequest? <==> IsEmptyName(name))
      && (response.NotFound? <==> !IsEmptyName(name) && name !in files)
      && (response.NotModified? <==>
            !IsEmptyName(name) && name in files && ifNoneMatch == Some(ETag(files[name])))
      && (response.NotModified? || response.Serve? ==> name in files && response.etag == ETag(files[name]))
      && (response.Serve? ==> response.path == PublicDir + name)
    ensures var name := CleanName(img.GetOr(""));
      && (IsEmptyName(name) ==> response.Status() == 400 && response.Message() == "Image name required")
      && (!IsEmptyName(name) && name !in files ==> response.Status() == 404 && response.Message() == "Image not found")
      && (response.NotModified? ==> response.Status() == 304 && response.Message() == "")
      && (response.Serve? ==> response.Status() == 200)
    ensures img.None? || img == Some("0") ==> response == BadRequest
  {
    if img == Some("0") {
      CleanSingleSafe('0');
    }
    var imageName := img.GetOr("");
    imageName := Basename(imageName);
    imageName := KeepSafe(imageName);
    if IsEmptyName(imageName) {
      return BadRequest;
    }
    var imagePath := PublicDir + imageName;
    if imageName !in files {
      return NotFound;
    }
    var etag := ETag(files[imageName]);
    if ifNoneMatch.Some? && ifNoneMatch.value == etag {
      return NotModified(etag);
    }
    return Serve(imagePath, etag);
  }

  /** The part of the served path after the public directory is one component made of safe
      characters (possibly `.` or `..`). */
  lemma ServedPathIsOneComponent(img: Option<string>, files: map<string, string>, ifNoneMatch: Option<string>, path: string, etag: string)
    requires var name := CleanName(img.GetOr(""));
      !IsEmptyName(name) && name in files && ifNoneMatch != Some(ETag(files[name]))
      && path == PublicDir + name
    ensures |path| > |PublicDir| && path[..|PublicDir|] == PublicDir
    ensures '/' !in path[|PublicDir|..]
    ensures forall i :: |PublicDir| <= i < |path| ==> IsSafe(path[i])
  {
    var name := CleanName(img.GetOr(""));
    assert path[|PublicDir|..] == name;
  }

  /** A lower-case hexadecimal digit, as `md5_file` writes them. */
  predicate IsHexDigit(c: char)
  {
    '0' <= c <= '9' || 'a' <= c <= 'f'
  }

  /** What `md5_file` returns: 32 lower-case hexadecimal digits. */
  predicate IsMd5Hex(hash: string)
  {
    |hash| == 32 && forall i :: 0 <= i < |hash| ==> IsHexDigit(hash[i])
  }

  /** A quoted md5 digest holds no comma. */
  lemma Md5TagHasNoComma(hash: string)
    requires IsMd5Hex(hash)
    ensures ',' !in ETag(hash)
  {
    var tag := ETag(hash);
    forall i | 0 <= i < |tag| ensures tag[i] != ',' {
      if 0 < i < |tag| - 1 {
        assert tag[i] == hash[i - 1];
      }
    }
  }

  /** A weak validator, a list of tags or `*` never produces 304, since only the exact
      quoted hash matches, even when the list holds that very tag. */
  lemma OnlyExactTagMatches(hash: string, header: string)
    requires IsMd5Hex(hash)
    requires header == "*" || (|header| >= 2 && header[..2] == "W/") || ',' in header
    ensures header != ETag(hash)
  {
    Md5TagHasNoComma(hash);
  }
}
