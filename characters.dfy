/** Predicate parsers: `sat`, the character classes that the source builds
    from regular expressions, `char` and `str`. */
module Characters {
  import opened Values
  import opened Primitives
  import opened Sequencing

  /** `sat($pred)`: one character, kept iff `pred` holds of it. */
  function Sat(pred: Val -> bool): Parser
  {
    Then(Item(), i1 => if pred(i1) then Return(i1) else Failure())
  }

  /** `match($rgx)` for a regular expression that is one character class:
      the string matches iff one of its characters is in the class. */
  function Matches(cls: char -> bool): Val -> bool
  {
    (v: Val) => match v
         case Text(x) => exists i :: 0 <= i < |x| && cls(x[i])
         case Array(_) => false
  }

  /** `[a-z]` */
  predicate IsLower(c: char)
  {
    'a' <= c <= 'z'
  }

  /** `\d` */
  predicate IsDigit(c: char)
  {
    '0' <= c <= '9'
  }

  /** `\w|_`: letters, digits and the underscore. */
  predicate IsWordChar(c: char)
  {
    IsLower(c) || ('A' <= c <= 'Z') || IsDigit(c) || c == '_'
  }

  /** `\s`: space, tab, line feed, vertical tab, form feed, carriage return. */
  predicate IsSpaceChar(c: char)
  {
    c == ' ' || c == '\t' || c == '\n' || c == '\U{0B}' || c == '\U{0C}' || c == '\r'
  }

  /** `lower()` */
  function Lower(): Parser
  {
    Sat(Matches(IsLower))
  }

  /** `digit()` */
  function Digit(): Parser
  {
    Sat(Matches(IsDigit))
  }

  /** `alphanum()` */
  function Alphanum(): Parser
  {
    Sat(Matches(IsWordChar))
  }

  /** `isSpace()` */
  function IsSpace(): Parser
  {
    Sat(Matches(IsSpaceChar))
  }

  /** `char($s)`: exactly the character `c`. */
  function Char(c: char): Parser
  {
    Sat(Equals(c))
  }

  /** The comparison `$in == $s` of `char`, for a one-character `$s`. */
  function Equals(c: char): Val -> bool
  {
    i1 => i1 == Text([c])
  }

  /** The list of `char` parsers that `str` builds, one per character. */
  function CharParsers(t: string): seq<Parser>
  {
    seq(|t|, i requires 0 <= i < |t| => Char(t[i]))
  }

  /** The `for` loop of `str` that fills `$fs`. */
  method StrParsers(t: string) returns (fs: seq<Parser>)
    ensures fs == CharParsers(t)
  {
    fs := [];
    for i := 0 to |t|
      invariant |fs| == i
      invariant forall j :: 0 <= j < i ==> fs[j] == Char(t[j])
    {
      fs := fs + [Char(t[i])];
    }
  }

  /** `str($s)`: the characters of `t` in a row, as one string. The source
      calls a null parser when `t` is empty, so `t` must not be. */
  function Str(t: string): Parser
    requires t != []
  {
    SeqS(CharParsers(t))
  }

  /** What a parser for one character of a class does: it takes the first
      character iff there is one and it is in the class. */
  function ClassStep(cls: char -> bool, s: seq<char>): Result
  {
    if s != [] && cls(s[0]) then Some((Text([s[0]]), s[1..])) else None
  }

  /** What `char(c)` does: it takes the first character iff it is `c`. */
  function CharStep(c: char, s: seq<char>): Result
  {
    if s != [] && s[0] == c then Some((Text([c]), s[1..])) else None
  }

  /** `sat` consumes the first character iff `pred` accepts it. */
  lemma SatSpec(pred: Val -> bool, s: seq<char>)
    ensures Sat(pred)(s) ==
              if s != [] && pred(Text([s[0]])) then Some((Text([s[0]]), s[1..])) else None
  {
  }

  lemma MatchesOne(cls: char -> bool, c: char)
    ensures Matches(cls)(Text([c])) == cls(c)
  {
    if cls(c) {
      assert [c][0] == c;
    }
  }

  /** A class parser consumes the first character iff it is in the class. */
  lemma ClassSpec(cls: char -> bool, s: seq<char>)
    ensures Sat(Matches(cls))(s) == ClassStep(cls, s)
  {
    if s != [] {
      MatchesOne(cls, s[0]);
    }
  }

  /** `char(c)` consumes the first character iff it is `c`. */
  lemma CharSpec(c: char, s: seq<char>)
    ensures Char(c)(s) == CharStep(c, s)
  {
    SatSpec(Equals(c), s);
    if s != [] {
      assert Equals(c)(Text([s[0]])) <==> s[0] == c by {
        assert [s[0]][0] == s[0];
      }
    }
  }

  lemma SatAdvances(pred: Val -> bool)
    ensures Advances(Sat(pred))
  {
    forall s | Sat(pred)(s).Some?
      ensures IsStrictSuffix(Sat(pred)(s).value.1, s)
    {
      SatSpec(pred, s);
      assert s[|s| - |s[1..]|..] == s[1..];
    }
  }

  lemma CharParsersAdvance(t: string)
    ensures forall i :: 0 <= i < |t| ==> Advances(CharParsers(t)[i])
  {
    forall i | 0 <= i < |t| ensures Advances(CharParsers(t)[i]) {
      SatAdvances(Equals(t[i]));
    }
  }

  /** Running the `char` parsers of `t` succeeds iff the input starts with
      `t`, yielding its characters and the input after them. */
  lemma {:induction false} CollectChars(t: string, s: seq<char>)
    ensures Collect(CharParsers(t), s) ==
              if t <= s then Some((Chars(t), s[|t|..])) else None
    decreases |t|
  {
    if t == [] {
      assert Chars(t) == [];
    } else {
      assert CharParsers(t)[1..] == CharParsers(t[1..]);
      CharSpec(t[0], s);
      if s != [] && s[0] == t[0] {
        CollectChars(t[1..], s[1..]);
        assert t <= s <==> t[1..] <= s[1..];
        assert Chars(t) == [Text([t[0]])] + Chars(t[1..]);
        if t <= s {
          assert s[1..][|t| - 1..] == s[|t|..];
        }
      } else {
        assert !(t <= s);
      }
    }
  }

  /** For nonempty `t`, `str(t)` succeeds iff the input starts with `t`; its
      value is `t` and the remainder is the input without those |t|
      characters. */
  lemma StrSpec(t: string, s: seq<char>)
    requires t != []
    ensures Str(t)(s) == if t <= s then Some((Text(t), s[|t|..])) else None
  {
    SeqSCollects(CharParsers(t), s);
    CollectChars(t, s);
    FlattenChars(t);
  }

  lemma StrAdvances(t: string)
    requires t != []
    ensures Advances(Str(t))
  {
    CharParsersAdvance(t);
    SeqConsumes(Concat, CharParsers(t));
    assert Advances(CharParsers(t)[0]);
  }
}
