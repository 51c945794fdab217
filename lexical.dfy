/** The lexical layer: whitespace, tokens, identifiers, natural numbers and
    symbols, each built from the combinators below it. */
module Lexical {
  import opened Values
  import opened Primitives
  import opened Sequencing
  import opened Repetition
  import opened Characters

  /** The length of the longest prefix of `s` whose characters are all in
      the class. */
  function Span(cls: char -> bool, s: seq<char>): (n: nat)
    ensures n <= |s|
    ensures forall i :: 0 <= i < n ==> cls(s[i])
    ensures n < |s| ==> !cls(s[n])
    decreases |s|
  {
    if s != [] && cls(s[0]) then 1 + Span(cls, s[1..]) else 0
  }

  /** The input with its leading whitespace dropped. */
  function SkipSpace(s: seq<char>): seq<char>
  {
    s[Span(IsSpaceChar, s)..]
  }

  /** `p` consumes one character exactly when it is in the class. */
  ghost predicate ParsesClass(p: Parser, cls: char -> bool)
  {
    forall x :: p(x) == ClassStep(cls, x)
  }

  lemma ClassParses(cls: char -> bool)
    ensures ParsesClass(Sat(Matches(cls)), cls)
    ensures Advances(Sat(Matches(cls)))
  {
    SatAdvances(Matches(cls));
    forall x ensures Sat(Matches(cls))(x) == ClassStep(cls, x) {
      ClassSpec(cls, x);
    }
  }

  /** Repeating a class parser takes exactly the longest run of characters
      of that class, one string per character. */
  lemma {:induction false} IterateRun(p: Parser, cls: char -> bool, s: seq<char>)
    requires Advances(p) && ParsesClass(p, cls)
    ensures Iterate(p, s) == (Chars(s[..Span(cls, s)]), s[Span(cls, s)..])
    decreases |s|
  {
    assert p(s) == ClassStep(cls, s);
    IterateStep(p, s);
    if s != [] && cls(s[0]) {
      IterateRun(p, cls, s[1..]);
      var n := Span(cls, s[1..]);
      assert s[1..][..n] == s[1..n + 1];
      assert s[1..][n..] == s[n + 1..];
      assert s[..n + 1][1..] == s[1..n + 1];
      CharsCons(s[..n + 1]);
    } else {
      assert Chars(s[..0]) == [];
    }
  }

  lemma IterateClass(cls: char -> bool, s: seq<char>)
    ensures Advances(Sat(Matches(cls)))
    ensures Iterate(Sat(Matches(cls)), s) == (Chars(s[..Span(cls, s)]), s[Span(cls, s)..])
  {
    ClassParses(cls);
    IterateRun(Sat(Matches(cls)), cls, s);
  }

  /** `space()`: skip whitespace, yield ''. */
  function Space(): Parser
  {
    SatAdvances(Matches(IsSpaceChar));
    Then(Many(IsSpace()), spc => Return(Text("")))
  }

  /** `token($p)`: `p` with the whitespace around it skipped. */
  function Token(p: Parser): Parser
  {
    SeqS([Space(), p, Space()])
  }

  /** `nat()`: one or more digits, as one string. */
  function Nat(): Parser
  {
    SatAdvances(Matches(IsDigit));
    SeqS([Many1(Digit())])
  }

  /** `ident()`: a lower-case letter followed by word characters. */
  function Ident(): Parser
  {
    SatAdvances(Matches(IsWordChar));
    SeqS([Lower(), Many(Alphanum())])
  }

  /** `symbol($s)`: the literal `t` between optional whitespace. */
  function Symbol(t: string): Parser
    requires t != []
  {
    SeqS([Token(Str(t))])
  }

  /** `identifier()`: `ident` between optional whitespace. */
  function Identifier(): Parser
  {
    SeqS([Token(Ident())])
  }

  /** `natural()`: `nat` between optional whitespace. */
  function Natural(): Parser
  {
    SeqS([Token(Nat())])
  }

  /** `space` never fails: it drops all leading whitespace and yields ''. */
  lemma SpaceSpec(s: seq<char>)
    ensures Space()(s) == Some((Text(""), SkipSpace(s)))
  {
    IterateClass(IsSpaceChar, s);
    ManySpec(IsSpace(), s);
  }

  /** `token(p)` runs `p` after the leading whitespace, skips the whitespace
      after it, and yields the text of `p`'s value. */
  lemma TokenSpec(p: Parser, s: seq<char>)
    ensures Token(p)(s) ==
              match p(SkipSpace(s))
              case None => None
              case Some((v, r)) => Some((Text(Flatten([v])), SkipSpace(r)))
  {
    SeqSThree(Space(), p, Space(), s);
    SpaceSpec(s);
    match p(SkipSpace(s))
    case None =>
    case Some((v, r)) =>
      SpaceSpec(r);
      FlattenAround("", v, "");
      assert "" + Flatten([v]) + "" == Flatten([v]);
  }

  /** Wrapping a parser whose value is a string in `seq_s` changes nothing. */
  lemma SeqSOfText(p: Parser, s: seq<char>)
    requires p(s).Some? ==> p(s).value.0.Text?
    ensures SeqS([p])(s) == p(s)
  {
    SeqSOne(p, s);
    if p(s).Some? {
      FlattenOne(p(s).value.0);
    }
  }

  /** `nat` succeeds iff the input starts with a digit; it takes the whole
      run of digits. */
  lemma NatSpec(s: seq<char>)
    ensures Nat()(s) ==
              var n := Span(IsDigit, s);
              if n > 0 then Some((Text(s[..n]), s[n..])) else None
  {
    IterateClass(IsDigit, s);
    ClassSpec(IsDigit, s);
    SeqSOne(Many1(Digit()), s);
    var n := Span(IsDigit, s);
    if n > 0 {
      FlattenOne(Array(Chars(s[..n])));
      FlattenChars(s[..n]);
    }
  }

  /** `ident`'s two stages, for any parsers that behave like `lower` and
      like `many(alphanum())`. */
  lemma {:induction false} IdentRun(l: Parser, m: Parser, s: seq<char>)
    requires ParsesClass(l, IsLower)
    requires forall x :: m(x) == Some((Array(Chars(x[..Span(IsWordChar, x)])), x[Span(IsWordChar, x)..]))
    ensures SeqS([l, m])(s) ==
              if s != [] && IsLower(s[0]) then
                var n := 1 + Span(IsWordChar, s[1..]);
                Some((Text(s[..n]), s[n..]))
              else None
  {
    SeqSTwo(l, m, s);
    assert l(s) == ClassStep(IsLower, s);
    if s != [] && IsLower(s[0]) {
      var k := Span(IsWordChar, s[1..]);
      var w := s[1..][..k];
      assert m(s[1..]) == Some((Array(Chars(w)), s[1..][k..]));
      assert Flatten([Text([s[0]]), Array(Chars(w))]) == [s[0]] + w by {
        assert [Text([s[0]]), Array(Chars(w))][1..] == [Array(Chars(w))];
        FlattenOne(Array(Chars(w)));
        FlattenChars(w);
      }
      assert [s[0]] + w == s[..k + 1];
      assert s[1..][k..] == s[k + 1..];
    }
  }

  /** `ident` succeeds iff the input starts with a lower-case letter; it
      takes that letter and the run of word characters after it. */
  lemma IdentSpec(s: seq<char>)
    ensures Ident()(s) ==
              if s != [] && IsLower(s[0]) then
                var n := 1 + Span(IsWordChar, s[1..]);
                Some((Text(s[..n]), s[n..]))
              else None
  {
    ClassParses(IsLower);
    forall x ensures Many(Alphanum())(x) ==
                       Some((Array(Chars(x[..Span(IsWordChar, x)])), x[Span(IsWordChar, x)..]))
    {
      IterateClass(IsWordChar, x);
      ManySpec(Alphanum(), x);
    }
    IdentRun(Lower(), Many(Alphanum()), s);
  }

  /** Wrapping a token in `seq_s` changes nothing. */
  lemma TokenWrapped(p: Parser, s: seq<char>)
    ensures SeqS([Token(p)])(s) == Token(p)(s)
  {
    TokenSpec(p, s);
    SeqSOfText(Token(p), s);
  }

  /** `symbol(t)` succeeds iff `t` follows the leading whitespace; it yields
      `t` and skips the whitespace after it. */
  lemma SymbolSpec(t: string, s: seq<char>)
    requires t != []
    ensures Symbol(t)(s) ==
              var u := SkipSpace(s);
              if t <= u then Some((Text(t), SkipSpace(u[|t|..]))) else None
  {
    TokenWrapped(Str(t), s);
    TokenSpec(Str(t), s);
    StrSpec(t, SkipSpace(s));
    if t <= SkipSpace(s) {
      FlattenOne(Text(t));
    }
  }

  /** `identifier` is `ident` between optional whitespace. */
  lemma IdentifierSpec(s: seq<char>)
    ensures Identifier()(s) ==
              var u := SkipSpace(s);
              if u != [] && IsLower(u[0]) then
                var n := 1 + Span(IsWordChar, u[1..]);
                Some((Text(u[..n]), SkipSpace(u[n..])))
              else None
  {
    TokenWrapped(Ident(), s);
    TokenSpec(Ident(), s);
    IdentSpec(SkipSpace(s));
    var u := SkipSpace(s);
    if u != [] && IsLower(u[0]) {
      var n := 1 + Span(IsWordChar, u[1..]);
      FlattenOne(Text(u[..n]));
    }
  }

  /** `natural` is `nat` between optional whitespace. */
  lemma NaturalSpec(s: seq<char>)
    ensures Natural()(s) ==
              var u := SkipSpace(s);
              var n := Span(IsDigit, u);
              if n > 0 then Some((Text(u[..n]), SkipSpace(u[n..]))) else None
  {
    TokenWrapped(Nat(), s);
    TokenSpec(Nat(), s);
    NatSpec(SkipSpace(s));
    var u := SkipSpace(s);
    var n := Span(IsDigit, u);
    if n > 0 {
      FlattenOne(Text(u[..n]));
    }
  }

  lemma SkipSpaceSuffix(s: seq<char>)
    ensures IsSuffix(SkipSpace(s), s)
  {
  }

  /** `token(p)` consumes when `p` does, and makes progress when `p` does. */
  lemma TokenConsumes(p: Parser)
    requires Consumes(p)
    ensures Consumes(Token(p))
    ensures Advances(p) ==> Advances(Token(p))
  {
    forall s | Token(p)(s).Some?
      ensures IsSuffix(Token(p)(s).value.1, s)
      ensures Advances(p) ==> IsStrictSuffix(Token(p)(s).value.1, s)
    {
      TokenSpec(p, s);
      var (v, r) := p(SkipSpace(s)).value;
      SkipSpaceSuffix(s);
      SkipSpaceSuffix(r);
      SuffixTransitive(r, SkipSpace(s), s);
      SuffixTransitive(SkipSpace(r), r, s);
    }
  }
}
