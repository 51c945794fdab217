/** The result model shared by every parser of the engine: parser values,
    the one-or-none result list, and the string flattening `to_s`. */
module Values {

  datatype Option<+T> = None | Some(value: T)

  /** A value produced by a parser: a PHP string, or a (nested) PHP array. */
  datatype Val = Text(s: string) | Array(items: seq<Val>)

  /** The result list of a parser: empty on failure, otherwise exactly one
      `[value, remainder]` pair. `None?` is the source's `isEmpty`. */
  type Result = Option<(Val, seq<char>)>

  /** A parser is a closure from the input to a result. */
  type Parser = seq<char> -> Result

  /** A reducer of `seq` receives the collected values positionally; like a
      PHP closure with declared parameters it may demand an exact arity. */
  type Reducer = seq<Val> --> Val

  /** `r` is what is left of `s` after dropping some prefix. */
  predicate IsSuffix(r: seq<char>, s: seq<char>)
  {
    |r| <= |s| && s[|s| - |r|..] == r
  }

  predicate IsStrictSuffix(r: seq<char>, s: seq<char>)
  {
    IsSuffix(r, s) && |r| < |s|
  }

  /** A successful `p` never does anything but drop a prefix of its input. */
  ghost predicate Consumes(p: Parser)
  {
    forall s :: p(s).Some? ==> IsSuffix(p(s).value.1, s)
  }

  /** A successful `p` drops a nonempty prefix of its input: the progress
      that `many1`'s loop needs in order to stop. */
  ghost predicate Advances(p: Parser)
  {
    forall s :: p(s).Some? ==> IsStrictSuffix(p(s).value.1, s)
  }

  lemma AdvancesConsumes(p: Parser)
    requires Advances(p)
    ensures Consumes(p)
  {
  }

  lemma SuffixTransitive(r: seq<char>, m: seq<char>, s: seq<char>)
    requires IsSuffix(r, m) && IsSuffix(m, s)
    ensures IsSuffix(r, s)
    ensures |r| < |m| || |m| < |s| ==> IsStrictSuffix(r, s)
  {
    assert s[|s| - |r|..] == s[|s| - |m|..][|m| - |r|..];
  }

  /** The text of a list of values: the strings they hold, depth first,
      left to right. A reference definition for `ToS`. */
  function Flatten(vs: seq<Val>): string
    decreases vs
  {
    if vs == [] then ""
    else
      (match vs[0]
       case Text(x) => x
       case Array(xs) => Flatten(xs))
      + Flatten(vs[1..])
  }

  /** `to_s($s, $args)`: appends the strings of `args` to `acc`, descending
      into nested arrays, one argument at a time. */
  function ToS(acc: string, args: seq<Val>): string
    decreases args
  {
    if args == [] then acc
    else
      ToS(match args[0]
          case Text(x) => acc + x
          case Array(xs) => ToS(acc, xs),
          args[1..])
  }

  /** `to_s` appends exactly the text of its arguments. */
  lemma {:induction false} ToSAppendsFlatten(acc: string, args: seq<Val>)
    ensures ToS(acc, args) == acc + Flatten(args)
    decreases args
  {
    if args != [] {
      match args[0]
      case Text(x) =>
        ToSAppendsFlatten(acc + x, args[1..]);
      case Array(xs) =>
        ToSAppendsFlatten(acc, xs);
        ToSAppendsFlatten(acc + Flatten(xs), args[1..]);
    }
  }

  lemma FlattenOne(v: Val)
    ensures Flatten([v]) == match v case Text(x) => x case Array(xs) => Flatten(xs)
  {
    assert [v][1..] == [];
  }

  lemma FlattenAround(a: string, v: Val, b: string)
    ensures Flatten([Text(a), v, Text(b)]) == a + Flatten([v]) + b
  {
    assert [Text(a), v, Text(b)][1..] == [v, Text(b)];
    assert [v, Text(b)][1..] == [Text(b)];
    FlattenOne(v);
    FlattenOne(Text(b));
  }

  lemma {:induction false} FlattenAppend(vs: seq<Val>, ws: seq<Val>)
    ensures Flatten(vs + ws) == Flatten(vs) + Flatten(ws)
    decreases vs
  {
    if vs == [] {
      assert vs + ws == ws;
    } else {
      assert (vs + ws)[0] == vs[0] && (vs + ws)[1..] == vs[1..] + ws;
      FlattenAppend(vs[1..], ws);
    }
  }

  /** The `foreach` loop of `to_s`, recursing into nested arrays. */
  method ToSLoop(acc: string, args: seq<Val>) returns (r: string)
    ensures r == acc + Flatten(args)
    decreases args
  {
    r := acc;
    for i := 0 to |args|
      invariant r == acc + Flatten(args[..i])
    {
      assert args[..i + 1] == args[..i] + [args[i]];
      FlattenAppend(args[..i], [args[i]]);
      FlattenOne(args[i]);
      match args[i]
      case Text(x) =>
        r := r + x;
      case Array(xs) =>
        r := ToSLoop(r, xs);
    }
    assert args[..|args|] == args;
  }

  /** One string per character: what a run of one-character parsers yields. */
  function Chars(t: string): seq<Val>
  {
    seq(|t|, i requires 0 <= i < |t| => Text([t[i]]))
  }

  /** The first character's string, followed by the strings of the rest. */
  lemma CharsCons(t: string)
    requires t != []
    ensures Chars(t) == [Text([t[0]])] + Chars(t[1..])
  {
  }

  lemma {:induction false} FlattenChars(t: string)
    ensures Flatten(Chars(t)) == t
    decreases |t|
  {
    if t != [] {
      assert Chars(t)[1..] == Chars(t[1..]);
      FlattenChars(t[1..]);
    }
  }

  /** PHP's `join('', $a)`: strings are concatenated, a nested array
      converts to the string "Array". */
  function Join(v: Val): string
  {
    match v
    case Text(x) => x
    case Array(xs) => JoinItems(xs)
  }

  function JoinItems(xs: seq<Val>): string
  {
    if xs == [] then ""
    else
      (match xs[0]
       case Text(x) => x
       case Array(_) => "Array")
      + JoinItems(xs[1..])
  }

  /** On a list of strings, joining and flattening agree. */
  lemma {:induction false} JoinItemsOfTexts(xs: seq<Val>)
    requires forall i :: 0 <= i < |xs| ==> xs[i].Text?
    ensures JoinItems(xs) == Flatten(xs)
    decreases |xs|
  {
    if xs != [] {
      JoinItemsOfTexts(xs[1..]);
    }
  }
}
