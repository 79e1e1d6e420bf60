/**
 * The decoded translation dictionary (`json_decode($json, true)`) and the
 * path walk of `getText`: each step is PHP's `isset($text[$k])` followed by
 * `$text = $text[$k]`.
 */
module Translation {
  import opened Wrappers
  import opened PhpStrings

  /** A decoded JSON value. Objects and lists both become PHP arrays; they are kept apart here. */
  datatype Node =
    | Null
    | Bool(b: bool)
    | Number(x: real)
    | Str(s: string)
    | List(items: seq<Node>)
    | Dict(entries: map<string, Node>)

  /** The sentinel `getText` returns for a key that does not resolve. */
  const MissingPrefix: string := "Missing translation: "

  function MissingTranslation(key: string): (text: Node)
    ensures text.Str? && |text.s| == |MissingPrefix| + |key|
    ensures text.s[..|MissingPrefix|] == MissingPrefix && text.s[|MissingPrefix|..] == key
  {
    Str(MissingPrefix + key)
  }

  predicate IsDigit(c: char)
  {
    '0' <= c <= '9'
  }

  /** A segment PHP turns into an integer array key: `"0"` or digits without a leading zero.
      Only such a segment can reach an element of a decoded JSON list. */
  predicate IsListIndex(seg: string)
  {
    seg == "0" || (|seg| > 0 && '1' <= seg[0] <= '9' && forall i :: 0 <= i < |seg| ==> IsDigit(seg[i]))
  }

  /** The value of a string of decimal digits. */
  function DecimalValue(seg: string): nat
  {
    if seg == [] then 0
    else DecimalValue(seg[..|seg| - 1]) * 10 + (if IsDigit(seg[|seg| - 1]) then seg[|seg| - 1] as int - '0' as int else 0)
  }

  /** The decimal spelling of `n`, as PHP prints an integer list position. */
  function Decimal(n: nat): (seg: string)
    ensures |seg| > 0 && (n > 0 ==> '1' <= seg[0] <= '9')
    ensures forall i :: 0 <= i < |seg| ==> IsDigit(seg[i])
  {
    if n < 10 then [('0' as int + n) as char]
    else Decimal(n / 10) + [('0' as int + n % 10) as char]
  }

  /** Every list position has a segment that reaches it: `Decimal` is inverted by `DecimalValue`. */
  lemma {:induction false} DecimalRoundTrip(n: nat)
    ensures IsListIndex(Decimal(n)) && DecimalValue(Decimal(n)) == n
  {
    var seg := Decimal(n);
    if n >= 10 {
      DecimalRoundTrip(n / 10);
      assert seg[..|seg| - 1] == Decimal(n / 10);
    }
  }

  /** One step of the walk: `isset($node[$seg]) ? $node[$seg] : miss`.
      `isset` is false for a null child and for anything that is not an array.
      Descending into a string by an integer offset is not part of this model. */
  function Child(node: Node, seg: string): (child: Option<Node>)
    ensures child.Some? ==> child.value != Null
    ensures child.Some? ==> node.Dict? || node.List?
    ensures node.Dict? ==> (child.Some? <==> seg in node.entries && node.entries[seg] != Null)
    ensures node.Dict? && child.Some? ==> child.value == node.entries[seg]
  {
    match node
    case Dict(m) => if seg in m && m[seg] != Null then Some(m[seg]) else None
    case List(xs) =>
      if IsListIndex(seg) && DecimalValue(seg) < |xs| && xs[DecimalValue(seg)] != Null
      then Some(xs[DecimalValue(seg)]) else None
    case _ => None
  }

  /** The element at position `i` of a list is reached through its decimal segment, e.g. `subtitles.0`. */
  lemma ListChild(xs: seq<Node>, i: nat)
    requires i < |xs| && xs[i] != Null
    ensures Child(List(xs), Decimal(i)) == Some(xs[i])
  {
    DecimalRoundTrip(i);
  }

  /** The node reached by following `path` from `node`, or `None` at the first missing segment. */
  function Lookup(node: Node, path: seq<string>): (r: Option<Node>)
    ensures path == [] ==> r == Some(node)
    ensures path != [] && r.Some? ==> r.value != Null
    decreases |path|
  {
    if path == [] then Some(node)
    else match Child(node, path[0])
      case None => None
      case Some(c) => Lookup(c, path[1..])
  }

  /** Walking `a + b` is walking `a` and then `b` from where it ended. */
  lemma {:induction false} LookupAppend(node: Node, a: seq<string>, b: seq<string>)
    ensures Lookup(node, a + b) == match Lookup(node, a) case None => None case Some(m) => Lookup(m, b)
    decreases |a|
  {
    if a == [] {
      assert a + b == b;
    } else {
      assert (a + b)[0] == a[0] && (a + b)[1..] == a[1..] + b;
      match Child(node, a[0])
      case None =>
      case Some(c) => LookupAppend(c, a[1..], b);
    }
  }

  /** A miss at any depth is final: no longer path below it resolves. */
  lemma MissIsFinal(node: Node, a: seq<string>, b: seq<string>)
    requires Lookup(node, a).None?
    ensures Lookup(node, a + b).None?
  {
    LookupAppend(node, a, b);
  }

  /** The tree holding `leaf` under the nested keys of `path`. */
  function Nest(path: seq<string>, leaf: Node): (tree: Node)
    ensures path != [] ==> tree.Dict? && tree.entries.Keys == {path[0]}
  {
    if path == [] then leaf else Dict(map[path[0] := Nest(path[1..], leaf)])
  }

  /** Whatever non-null value is stored under a path is found again by walking that path. */
  lemma {:induction false} LookupNest(path: seq<string>, leaf: Node)
    requires leaf != Null
    ensures Lookup(Nest(path, leaf), path) == Some(leaf)
    decreases |path|
  {
    if path != [] {
      LookupNest(path[1..], leaf);
    }
  }

  /** The dotted key spelled from `path` walks exactly `path` when no segment holds a dot:
      the entry stored there is what the lookup of that key finds. */
  lemma DottedKeyFindsNestedEntry(path: seq<string>, leaf: Node)
    requires |path| >= 1 && leaf != Null
    requires forall i :: 0 <= i < |path| ==> '.' !in path[i]
    ensures Lookup(Nest(path, leaf), Explode('.', Join('.', path))) == Some(leaf)
  {
    ExplodeJoin('.', path);
    LookupNest(path, leaf);
  }
}
