/**
 * The PHP string builtins the language manager and the image server rely on.
 * A PHP string is a byte string; here each `char` stands for one byte.
 */
module PhpStrings {

  /** `explode(sep, s)` with a one-character separator: the pieces between
      separators, in order. As in PHP, the empty string explodes to `[""]`. */
  function Explode(sep: char, s: string): (parts: seq<string>)
    ensures |parts| >= 1
  {
    if s == [] then [[]]
    else
      var rest := Explode(sep, s[1..]);
      if s[0] == sep then [[]] + rest
      else [[s[0]] + rest[0]] + rest[1..]
  }

  /** No piece contains the separator. */
  lemma {:induction false} ExplodePieces(sep: char, s: string)
    ensures forall i :: 0 <= i < |Explode(sep, s)| ==> sep !in Explode(sep, s)[i]
  {
    if s != [] {
      ExplodePieces(sep, s[1..]);
      var rest := Explode(sep, s[1..]);
      if s[0] != sep {
        assert sep !in [s[0]] + rest[0];
      }
    }
  }

  /** `implode(sep, parts)`: the inverse of `Explode`. */
  function Join(sep: char, parts: seq<string>): string
    requires |parts| >= 1
  {
    if |parts| == 1 then parts[0] else parts[0] + [sep] + Join(sep, parts[1..])
  }

  /** Number of occurrences of `c` in `s`. */
  function Occurrences(c: char, s: string): nat
  {
    if s == [] then 0 else (if s[0] == c then 1 else 0) + Occurrences(c, s[1..])
  }

  /** Gluing the pieces back together gives the original string. */
  lemma {:induction false} JoinExplode(sep: char, s: string)
    ensures Join(sep, Explode(sep, s)) == s
  {
    if s != [] {
      var rest := Explode(sep, s[1..]);
      JoinExplode(sep, s[1..]);
      if s[0] == sep {
        assert ([[]] + rest)[1..] == rest;
      } else if |rest| > 1 {
        var parts := [[s[0]] + rest[0]] + rest[1..];
        assert parts[1..] == rest[1..];
        assert Join(sep, rest) == rest[0] + [sep] + Join(sep, rest[1..]);
        assert s == [s[0]] + s[1..];
      } else {
        assert s == [s[0]] + s[1..];
      }
    }
  }

  /** A string without the separator is a single piece. */
  lemma {:induction false} ExplodeWithoutSeparator(sep: char, s: string)
    requires sep !in s
    ensures Explode(sep, s) == [s]
  {
    if s != [] {
      assert sep !in s[1..] by {
        forall i | 0 <= i < |s[1..]| ensures s[1..][i] != sep { assert s[1..][i] == s[i + 1]; }
      }
      ExplodeWithoutSeparator(sep, s[1..]);
      assert s == [s[0]] + s[1..];
    }
  }

  /** A separator splits the exploded pieces into those of either side. */
  lemma {:induction false} ExplodeAppend(sep: char, a: string, b: string)
    ensures Explode(sep, a + [sep] + b) == Explode(sep, a) + Explode(sep, b)
  {
    var s := a + [sep] + b;
    if a == [] {
      assert s[0] == sep && s[1..] == b;
    } else {
      assert s[0] == a[0] && s[1..] == a[1..] + [sep] + b;
      ExplodeAppend(sep, a[1..], b);
      ExplodeSameHead(sep, s, a, Explode(sep, b));
    }
  }

  /** The inductive step of `ExplodeAppend`: two strings with the same first character whose
      rests explode alike up to a common tail explode alike up to that tail. */
  lemma ExplodeSameHead(sep: char, x: string, y: string, tail: seq<string>)
    requires x != [] && y != [] && x[0] == y[0]
    requires Explode(sep, x[1..]) == Explode(sep, y[1..]) + tail
    ensures Explode(sep, x) == Explode(sep, y) + tail
  {
    if x[0] == sep {
      SeparatorHead(sep, x, y, tail);
    } else {
      ExtendFirstPiece([x[0]], Explode(sep, y[1..]), tail);
    }
  }

  lemma SeparatorHead(sep: char, x: string, y: string, tail: seq<string>)
    requires x != [] && y != [] && x[0] == sep && y[0] == sep
    requires Explode(sep, x[1..]) == Explode(sep, y[1..]) + tail
    ensures Explode(sep, x) == Explode(sep, y) + tail
  {
    var ey := Explode(sep, y[1..]);
    assert [[]] + (ey + tail) == ([[]] + ey) + tail;
  }

  /** Growing the first piece commutes with appending further pieces. */
  lemma ExtendFirstPiece(prefix: string, pieces: seq<string>, tail: seq<string>)
    requires |pieces| >= 1
    ensures [prefix + (pieces + tail)[0]] + (pieces + tail)[1..] == ([prefix + pieces[0]] + pieces[1..]) + tail
  {
    assert (pieces + tail)[1..] == pieces[1..] + tail;
  }

  /** Exploding what was joined gives back the pieces, provided none contains the separator. */
  lemma {:induction false} ExplodeJoin(sep: char, parts: seq<string>)
    requires |parts| >= 1
    requires forall i :: 0 <= i < |parts| ==> sep !in parts[i]
    ensures Explode(sep, Join(sep, parts)) == parts
  {
    ExplodeWithoutSeparator(sep, parts[0]);
    if |parts| > 1 {
      ExplodeJoin(sep, parts[1..]);
      ExplodeAppend(sep, parts[0], Join(sep, parts[1..]));
      assert parts == [parts[0]] + parts[1..];
    }
  }

  /** There is one more piece than there are separators. */
  lemma {:induction false} ExplodeLength(sep: char, s: string)
    ensures |Explode(sep, s)| == Occurrences(sep, s) + 1
  {
    if s != [] {
      ExplodeLength(sep, s[1..]);
    }
  }

  /** The first piece is the text before the first separator. */
  lemma {:induction false} ExplodeFirst(sep: char, s: string)
    ensures var first := Explode(sep, s)[0];
      |first| <= |s| && first == s[..|first|] && sep !in first && (|first| < |s| ==> s[|first|] == sep)
  {
    if s != [] {
      ExplodeFirst(sep, s[1..]);
    }
  }

  /** The characters PHP's `trim` strips: space, tab, line feed, carriage return, NUL and vertical tab. */
  predicate IsBlank(c: char)
  {
    c == ' ' || c == '\t' || c == '\n' || c == '\r' || c == '\0' || c == '\U{000B}'
  }

  /** `ltrim(s)`: the suffix of `s` left after its leading blanks. */
  function TrimLeft(s: string): (r: string)
    ensures |r| <= |s| && r == s[|s| - |r|..]
    ensures forall i :: 0 <= i < |s| - |r| ==> IsBlank(s[i])
    ensures r != [] ==> !IsBlank(r[0])
  {
    if s != [] && IsBlank(s[0]) then TrimLeft(s[1..]) else s
  }

  /** `rtrim(s)`: the prefix of `s` left after its trailing blanks. */
  function TrimRight(s: string): (r: string)
    ensures |r| <= |s| && r == s[..|r|]
    ensures forall i :: |r| <= i < |s| ==> IsBlank(s[i])
    ensures r != [] ==> !IsBlank(r[|r| - 1])
  {
    if s != [] && IsBlank(s[|s| - 1]) then TrimRight(s[..|s| - 1]) else s
  }

  /** `trim(s)`: the part of `s` between its leading and its trailing blanks. */
  function Trim(s: string): (r: string)
    ensures |r| <= |s|
    ensures r != [] ==> !IsBlank(r[0]) && !IsBlank(r[|r| - 1])
  {
    var t := TrimLeft(s);
    assert TrimRight(t) != [] ==> TrimRight(t)[0] == t[0];
    TrimRight(t)
  }

  /** The trimmed text is a slice of `s`, and everything outside it is blank. */
  lemma TrimIsSlice(s: string)
    ensures var k, r := |s| - |TrimLeft(s)|, Trim(s);
      && k + |r| <= |s| && r == s[k..k + |r|]
      && (forall i :: 0 <= i < k ==> IsBlank(s[i]))
      && (forall i :: k + |r| <= i < |s| ==> IsBlank(s[i]))
  {
    var t := TrimLeft(s);
    assert Trim(s) == TrimRight(t);
    SliceBetweenBlanks(s, t, TrimRight(t));
  }

  lemma SliceBetweenBlanks(s: string, t: string, r: string)
    requires |t| <= |s| && t == s[|s| - |t|..] && forall i :: 0 <= i < |s| - |t| ==> IsBlank(s[i])
    requires |r| <= |t| && r == t[..|r|] && forall i :: |r| <= i < |t| ==> IsBlank(t[i])
    ensures var k := |s| - |t|;
      && k + |r| <= |s| && r == s[k..k + |r|]
      && (forall i :: 0 <= i < k ==> IsBlank(s[i]))
      && (forall i :: k + |r| <= i < |s| ==> IsBlank(s[i]))
  {
    var k := |s| - |t|;
    forall i | k + |r| <= i < |s| ensures IsBlank(s[i]) {
      assert s[i] == t[i - k];
    }
  }

  /** `substr(s, 0, n)`: at most the first `n` characters. */
  function Prefix(s: string, n: nat): (r: string)
    ensures |r| <= n && |r| <= |s| && r == s[..|r|]
    ensures |r| < n ==> r == s
  {
    if |s| <= n then s else s[..n]
  }

  predicate IsUpper(c: char)
  {
    'A' <= c <= 'Z'
  }

  /** `strtolower` on one byte: ASCII letters only, as PHP 8.2 and later do. */
  function LowerChar(c: char): (d: char)
    ensures !IsUpper(d)
    ensures IsUpper(c) ==> d as int == c as int + 32
    ensures !IsUpper(c) ==> d == c
  {
    if IsUpper(c) then (c as int + 32) as char else c
  }

  /** `strtolower(s)`. */
  function Lower(s: string): (r: string)
    ensures |r| == |s|
    ensures forall i :: 0 <= i < |s| ==> r[i] == LowerChar(s[i])
  {
    if s == [] then [] else [LowerChar(s[0])] + Lower(s[1..])
  }
}
