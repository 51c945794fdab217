/** Structural combinators: `between`, `sepBy`, `notFollowedBy` and
    `quoted_str`. */
module Structural {
  import opened Values
  import opened Sequencing
  import opened Repetition
  import opened Characters
  import opened Lexical

  /** The reducer of `between`: keeps the middle of three values. */
  function Middle(vs: seq<Val>): Val
    requires |vs| == 3
  {
    vs[1]
  }

  /** `between($open, $close, $p)`: `open`, `p`, `close` in a row, keeping
      only `p`'s value. */
  function Between(open: Parser, close: Parser, p: Parser): Parser
  {
    Seq(Middle, [open, p, close])
  }

  /** `between` fails if any of the three parts fails; otherwise it yields
      `p`'s value and the remainder after `close`. */
  lemma BetweenSpec(open: Parser, close: Parser, p: Parser, s: seq<char>)
    ensures Between(open, close, p)(s) ==
              match open(s)
              case None => None
              case Some((_, s1)) =>
                match p(s1)
                case None => None
                case Some((v, s2)) =>
                  match close(s2)
                  case None => None
                  case Some((_, s3)) => Some((v, s3))
  {
    SeqThree(Middle, open, p, close, s);
  }

  /** `notFollowedBy($p)`: succeeds with '' iff `p` fails; never consumes. */
  function NotFollowedBy(p: Parser): Parser
  {
    inp => if p(inp).None? then Some((Text(""), inp)) else None
  }

  /** `notFollowedBy` never consumes input: it succeeds, leaving the input
      as it was, exactly when `p` fails. */
  lemma NotFollowedBySpec(p: Parser, s: seq<char>)
    ensures NotFollowedBy(p)(s).Some? <==> p(s).None?
    ensures NotFollowedBy(p)(s).Some? ==> NotFollowedBy(p)(s).value == (Text(""), s)
  {
  }

  lemma NotFollowedByConsumes(p: Parser)
    ensures Consumes(NotFollowedBy(p))
  {
    forall s | NotFollowedBy(p)(s).Some?
      ensures IsSuffix(NotFollowedBy(p)(s).value.1, s)
    {
      assert s[|s| - |s|..] == s;
    }
  }

  /** The reducer of `quoted_str`: the joined characters between the quotes. */
  function Unquote(vs: seq<Val>): Val
    requires |vs| == 3
  {
    Text(Join(vs[1]))
  }

  /** `quoted_str($q)`: a quote, one or more word characters, a quote. */
  function QuotedStr(q: char): Parser
  {
    SatAdvances(Matches(IsWordChar));
    Seq(Unquote, [Char(q), Many1(Alphanum()), Char(q)])
  }

  /** `p` consumes one character exactly when it is `c`. */
  ghost predicate ParsesChar(p: Parser, c: char)
  {
    forall x :: p(x) == CharStep(c, x)
  }

  /** `m` takes the longest nonempty run of word characters, one string per
      character, and fails on an empty run. */
  ghost predicate ParsesWord(m: Parser)
  {
    forall x :: m(x) ==
      var k := Span(IsWordChar, x);
      if k > 0 then Some((Array(Chars(x[..k])), x[k..])) else None
  }

  /** The result of `quoted_str`'s three stages, for any parsers that behave
      like `char(q)` and like `many1(alphanum())`. */
  lemma QuotedRun(l: Parser, m: Parser, r: Parser, q: char, s: seq<char>)
    requires ParsesChar(l, q) && ParsesChar(r, q) && ParsesWord(m)
    ensures Seq(Unquote, [l, m, r])(s) ==
              if s != [] && s[0] == q then
                var k := Span(IsWordChar, s[1..]);
                if 0 < k && k + 1 < |s| && s[k + 1] == q then Some((Text(s[1..k + 1]), s[k + 2..]))
                else None
              else None
  {
    SeqThree(Unquote, l, m, r, s);
    assert l(s) == CharStep(q, s);
    if s != [] && s[0] == q {
      var k := Span(IsWordChar, s[1..]);
      var w := s[1..][..k];
      assert m(s[1..]) == if k > 0 then Some((Array(Chars(w)), s[1..][k..])) else None;
      assert w == s[1..k + 1];
      assert s[1..][k..] == s[k + 1..];
      if k > 0 {
        var t := s[k + 1..];
        assert r(t) == CharStep(q, t);
        if k + 1 < |s| && s[k + 1] == q {
          assert t[1..] == s[k + 2..];
          JoinItemsOfTexts(Chars(w));
          FlattenChars(w);
        }
      }
    }
  }

  /** What `quoted_str(q)` accepts: `q`, the whole run of word characters
      after it (at least one), then `q` again; the value is that run. */
  lemma QuotedStrSpec(q: char, s: seq<char>)
    ensures QuotedStr(q)(s) ==
              if s != [] && s[0] == q then
                var k := Span(IsWordChar, s[1..]);
                if 0 < k && k + 1 < |s| && s[k + 1] == q then Some((Text(s[1..k + 1]), s[k + 2..]))
                else None
              else None
  {
    forall x ensures Char(q)(x) == CharStep(q, x) {
      CharSpec(q, x);
    }
    forall x ensures Many1(Alphanum())(x) ==
                       var k := Span(IsWordChar, x);
                       if k > 0 then Some((Array(Chars(x[..k])), x[k..])) else None
    {
      IterateClass(IsWordChar, x);
      ClassSpec(IsWordChar, x);
    }
    QuotedRun(Char(q), Many1(Alphanum()), Char(q), q, s);
  }

  /** The run of word characters is greedy, so a quote that is itself a
      word character is swallowed by it and `quoted_str` never succeeds. */
  lemma QuotedStrWordQuote(q: char, s: seq<char>)
    requires IsWordChar(q)
    ensures QuotedStr(q)(s).None?
  {
    QuotedStrSpec(q, s);
  }

  lemma QuotedStrAdvances(q: char)
    ensures Advances(QuotedStr(q))
  {
    forall s | QuotedStr(q)(s).Some?
      ensures IsStrictSuffix(QuotedStr(q)(s).value.1, s)
    {
      QuotedStrSpec(q, s);
      var k := Span(IsWordChar, s[1..]);
      assert s[|s| - |s[k + 2..]|..] == s[k + 2..];
    }
  }

  /** `$fin` of `sepBy`: an item followed by separators, as an array. */
  function Wrap(vs: seq<Val>): Val
    requires |vs| == 2
  {
    if vs[0].Array? then vs[0] else Array([vs[0]])
  }

  /** `$rss[] = $r`: appends the last item to the array that `many`
      collected (`many` always yields an array; a string would not occur). */
  function AppendLast(vs: seq<Val>): Val
    requires |vs| == 2
  {
    match vs[0]
    case Array(rss) => Array(rss + [vs[1]])
    case Text(_) => Array([vs[1]])
  }

  /** `seq($fin, $p, skipMany1($sep))`: an item and the separators after it. */
  function ItemSep(p: Parser, sep: Parser): Parser
    requires Advances(sep)
  {
    Seq(Wrap, [p, SkipMany1(sep)])
  }

  lemma ItemSepSpec(p: Parser, sep: Parser, s: seq<char>)
    requires Advances(sep)
    ensures ItemSep(p, sep)(s) ==
              match p(s)
              case None => None
              case Some((v, r)) =>
                if sep(r).None? then None
                else Some((if v.Array? then v else Array([v]), Iterate(sep, r).1))
  {
    SeqTwo(Wrap, p, SkipMany1(sep), s);
    match p(s)
    case None =>
    case Some((v, r)) =>
      SkipMany1Spec(sep, r);
  }

  lemma ItemSepAdvances(p: Parser, sep: Parser)
    requires Consumes(p) && Advances(sep)
    ensures Advances(ItemSep(p, sep))
  {
    forall s | ItemSep(p, sep)(s).Some?
      ensures IsStrictSuffix(ItemSep(p, sep)(s).value.1, s)
    {
      ItemSepSpec(p, sep, s);
      var (v, r) := p(s).value;
      SuffixTransitive(Iterate(sep, r).1, r, s);
    }
  }

  /** `sepBy($p, $sep)`: items separated by runs of separators, no trailing
      separator. Every item but the last is wrapped by `Wrap`. */
  function SepBy(p: Parser, sep: Parser): Parser
    requires Consumes(p) && Advances(sep)
  {
    ItemSepAdvances(p, sep);
    Seq(AppendLast, [Many(ItemSep(p, sep)), p])
  }

  /** `sepBy` repeats item-and-separators as long as that succeeds, then
      requires one bare item: its value is the wrapped items followed by the
      last one. */
  lemma SepBySpec(p: Parser, sep: Parser, s: seq<char>)
    requires Consumes(p) && Advances(sep)
    ensures Advances(ItemSep(p, sep))
    ensures SepBy(p, sep)(s) ==
              var (ws, r) := Iterate(ItemSep(p, sep), s);
              match p(r)
              case None => None
              case Some((v, rest)) => Some((Array(ws + [v]), rest))
  {
    ItemSepAdvances(p, sep);
    SeqTwo(AppendLast, Many(ItemSep(p, sep)), p, s);
    ManySpec(ItemSep(p, sep), s);
  }

  /** `sepBy` fails when the input does not start with an item. */
  lemma SepByNeedsItem(p: Parser, sep: Parser, s: seq<char>)
    requires Consumes(p) && Advances(sep)
    requires p(s).None?
    ensures SepBy(p, sep)(s).None?
  {
    SepBySpec(p, sep, s);
    ItemSepSpec(p, sep, s);
  }

  /** One item with no separator after it is a one-element array holding
      the bare item. */
  lemma SepBySingle(p: Parser, sep: Parser, s: seq<char>)
    requires Consumes(p) && Advances(sep)
    requires p(s).Some? && sep(p(s).value.1).None?
    ensures SepBy(p, sep)(s) == Some((Array([p(s).value.0]), p(s).value.1))
  {
    SepBySpec(p, sep, s);
    ItemSepSpec(p, sep, s);
    assert [] + [p(s).value.0] == [p(s).value.0];
  }

  /** A trailing separator is rejected when the item parser cannot start
      with what follows it: here the input is used up after the separator. */
  lemma SepByTrailingSeparator(p: Parser, sep: Parser, s: seq<char>)
    requires Consumes(p) && Advances(sep)
    requires p([]).None?
    requires p(s).Some? && sep(p(s).value.1).Some? && Iterate(sep, p(s).value.1).1 == []
    ensures SepBy(p, sep)(s).None?
  {
    SepBySpec(p, sep, s);
    ItemSepSpec(p, sep, s);
    ItemSepSpec(p, sep, []);
    assert Iterate(ItemSep(p, sep), []) == ([], []);
  }

  /** `sepBy(alphanum(), char(','))`. */
  function CommaSeparated(): Parser
  {
    SatAdvances(Matches(IsWordChar));
    SatAdvances(Equals(','));
    AdvancesConsumes(Alphanum());
    SepBy(Alphanum(), Char(','))
  }

  /** An item parser that takes one word character and a separator parser
      that takes one comma. */
  ghost predicate CommaListParsers(p: Parser, sep: Parser)
  {
    Advances(p) && Advances(sep) && ParsesClass(p, IsWordChar) && ParsesChar(sep, ',')
  }

  /** An item that is a string, followed by exactly one separator. */
  lemma ItemSepOnce(p: Parser, sep: Parser, s: seq<char>, x: string, r: seq<char>, c: Val, t: seq<char>)
    requires Advances(sep)
    requires p(s) == Some((Text(x), r)) && sep(r) == Some((c, t)) && sep(t).None?
    ensures ItemSep(p, sep)(s) == Some((Array([Text(x)]), t))
  {
    ItemSepSpec(p, sep, s);
    IterateStep(sep, r);
    IterateStep(sep, t);
  }

  /** What the two parsers do on each suffix of "a,b,c". */
  lemma CommaSteps(p: Parser, sep: Parser)
    requires CommaListParsers(p, sep)
    ensures p("a,b,c") == Some((Text("a"), ",b,c"))
    ensures p("b,c") == Some((Text("b"), ",c"))
    ensures p("c") == Some((Text("c"), []))
    ensures sep(",b,c") == Some((Text(","), "b,c")) && sep("b,c").None?
    ensures sep(",c") == Some((Text(","), "c")) && sep("c").None? && sep([]).None?
  {
    assert "a,b,c"[1..] == ",b,c" && ",b,c"[1..] == "b,c";
    assert "b,c"[1..] == ",c" && ",c"[1..] == "c" && "c"[1..] == [];
    assert p("a,b,c") == ClassStep(IsWordChar, "a,b,c");
    assert p("b,c") == ClassStep(IsWordChar, "b,c");
    assert p("c") == ClassStep(IsWordChar, "c");
    assert sep(",b,c") == CharStep(',', ",b,c");
    assert sep("b,c") == CharStep(',', "b,c");
    assert sep(",c") == CharStep(',', ",c");
    assert sep([]) == CharStep(',', []);
    assert sep("c") == CharStep(',', "c");
  }

  /** Item-and-separators on each suffix of "a,b,c" that starts an item. */
  lemma {:induction false} ItemSepCommas(p: Parser, sep: Parser)
    requires CommaListParsers(p, sep)
    ensures Consumes(p)
    ensures ItemSep(p, sep)("a,b,c") == Some((Array([Text("a")]), "b,c"))
    ensures ItemSep(p, sep)("b,c") == Some((Array([Text("b")]), "c"))
    ensures ItemSep(p, sep)("c") == None
  {
    AdvancesConsumes(p);
    CommaSteps(p, sep);
    ItemSepOnce(p, sep, "a,b,c", "a", ",b,c", Text(","), "b,c");
    ItemSepOnce(p, sep, "b,c", "b", ",c", Text(","), "c");
    ItemSepSpec(p, sep, "c");
  }

  /** `sepBy` on "a,b,c" for any such pair of parsers. */
  lemma {:induction false} SepByCommas(p: Parser, sep: Parser)
    requires CommaListParsers(p, sep)
    ensures Consumes(p)
    ensures SepBy(p, sep)("a,b,c") ==
              Some((Array([Array([Text("a")]), Array([Text("b")]), Text("c")]), []))
  {
    ItemSepCommas(p, sep);
    ItemSepAdvances(p, sep);
    IterateCommas(ItemSep(p, sep));
    CommaSteps(p, sep);
    SepBySpec(p, sep, "a,b,c");
    assert [Array([Text("a")]), Array([Text("b")])] + [Text("c")] ==
           [Array([Text("a")]), Array([Text("b")]), Text("c")];
  }

  lemma {:induction false} IterateCommas(q: Parser)
    requires Advances(q)
    requires q("a,b,c") == Some((Array([Text("a")]), "b,c"))
    requires q("b,c") == Some((Array([Text("b")]), "c"))
    requires q("c") == None
    ensures Iterate(q, "a,b,c") == ([Array([Text("a")]), Array([Text("b")])], "c")
  {
    IterateTwice(q, "a,b,c", "b,c", "c", Array([Text("a")]), Array([Text("b")]));
  }

  /** On "a,b,c" the first two items are wrapped in arrays and the last one
      is bare. */
  lemma SepByExample()
    ensures CommaSeparated()("a,b,c") ==
              Some((Array([Array([Text("a")]), Array([Text("b")]), Text("c")]), []))
  {
    ClassParses(IsWordChar);
    SatAdvances(Equals(','));
    forall x ensures Char(',')(x) == CharStep(',', x) {
      CharSpec(',', x);
    }
    SepByCommas(Alphanum(), Char(','));
  }

  lemma SepByConsumes(p: Parser, sep: Parser)
    requires Consumes(p) && Advances(sep)
    ensures Consumes(SepBy(p, sep))
    ensures Advances(p) ==> Advances(SepBy(p, sep))
  {
    forall s | SepBy(p, sep)(s).Some?
      ensures IsSuffix(SepBy(p, sep)(s).value.1, s)
      ensures Advances(p) ==> IsStrictSuffix(SepBy(p, sep)(s).value.1, s)
    {
      SepBySpec(p, sep, s);
      var (ws, r) := Iterate(ItemSep(p, sep), s);
      SuffixTransitive(SepBy(p, sep)(s).value.1, r, s);
    }
  }
}
