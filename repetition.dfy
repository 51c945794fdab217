/** Repetition: `many1`, `many`, `skipMany1`, `skipMany`. The engine has no
    progress check, so every combinator here requires a parser that
    consumes input whenever it succeeds. */
module Repetition {
  import opened Values
  import opened Primitives
  import opened Alternation

  /** Apply `p` as long as it succeeds: the values in order, and the
      remainder at the point where `p` first failed. */
  function Iterate(p: Parser, s: seq<char>): (r: (seq<Val>, seq<char>))
    requires Advances(p)
    ensures p(r.1).None?
    ensures IsSuffix(r.1, s)
    ensures r.0 == [] <==> p(s).None?
    ensures |r.0| <= |s| - |r.1|
    decreases |s|
  {
    match p(s)
    case None => ([], s)
    case Some((v, out)) =>
      var (vs, rest) := Iterate(p, out);
      SuffixTransitive(rest, out, s);
      ([v] + vs, rest)
  }

  /** One step of the iteration: nothing when `p` fails, otherwise `p`'s
      value in front of the iteration from where `p` stopped. */
  lemma IterateStep(p: Parser, s: seq<char>)
    requires Advances(p)
    ensures Iterate(p, s) ==
              match p(s)
              case None => ([], s)
              case Some((v, r)) => ([v] + Iterate(p, r).0, Iterate(p, r).1)
  {
  }

  /** Two successful steps followed by a failure. */
  lemma IterateTwice(p: Parser, s0: seq<char>, s1: seq<char>, s2: seq<char>, v0: Val, v1: Val)
    requires Advances(p)
    requires p(s0) == Some((v0, s1)) && p(s1) == Some((v1, s2)) && p(s2).None?
    ensures Iterate(p, s0) == ([v0, v1], s2)
  {
    IterateStep(p, s2);
    IterateStep(p, s1);
    IterateStep(p, s0);
    assert [v0] + ([v1] + []) == [v0, v1];
  }

  /** `many1($p)`: fails iff the first application fails, otherwise the
      array of all values. */
  function Many1(p: Parser): Parser
    requires Advances(p)
  {
    inp =>
      if p(inp).None? then None
      else Some((Array(Iterate(p, inp).0), Iterate(p, inp).1))
  }

  /** `many($p)`: `many1` or else an empty array. */
  function Many(p: Parser): Parser
    requires Advances(p)
  {
    OrElse(Many1(p), Return(Array([])))
  }

  /** `skipMany1($p)`: `many1` with its values replaced by ''. */
  function SkipMany1(p: Parser): Parser
    requires Advances(p)
  {
    Then(Many1(p), x => Return(Text("")))
  }

  /** `skipMany($p)`: `skipMany1` or else ''. */
  function SkipMany(p: Parser): Parser
    requires Advances(p)
  {
    OrElse(SkipMany1(p), Return(Text("")))
  }

  /** The `do ... while` loop of `many1`, accumulating into a local array. */
  method RunMany1(p: Parser, s: seq<char>) returns (res: Result)
    requires Advances(p)
    ensures res == Many1(p)(s)
  {
    var r := p(s);
    if r.None? {
      return None;
    }
    var ac: seq<Val> := [];
    var rest := s;
    assert ac + Iterate(p, rest).0 == Iterate(p, rest).0;
    while r.Some?
      invariant r == p(rest)
      invariant Iterate(p, s) == (ac + Iterate(p, rest).0, Iterate(p, rest).1)
      decreases |rest|
    {
      var (ht, out) := r.value;
      assert Iterate(p, rest).0 == [ht] + Iterate(p, out).0;
      assert ac + ([ht] + Iterate(p, out).0) == (ac + [ht]) + Iterate(p, out).0;
      ac := ac + [ht];
      rest := out;
      r := p(rest);
    }
    assert ac + [] == ac;
    return Some((Array(ac), rest));
  }

  /** `many1` fails exactly when `p` fails on the input; on success its
      array is nonempty and `p` fails where it stops. */
  lemma Many1Spec(p: Parser, s: seq<char>)
    requires Advances(p)
    ensures Many1(p)(s).None? <==> p(s).None?
    ensures Many1(p)(s).Some? ==>
              Many1(p)(s).value.0.Array? && Many1(p)(s).value.0.items != [] &&
              p(Many1(p)(s).value.1).None?
  {
  }

  /** The textbook recursive definition of one-or-more repetition:
      many1 p = p >>= \v -> many p >>= \vs -> return (v:vs). */
  function Many1Recursive(p: Parser): Parser
    requires Advances(p)
  {
    Then(p, v => PrependTo(p, v))
  }

  function PrependTo(p: Parser, v: Val): Parser
    requires Advances(p)
  {
    Then(Many(p), w => Return(Cons(v, w)))
  }

  /** The loop of `many1` agrees with its recursive definition. */
  lemma Many1Unfold(p: Parser, s: seq<char>)
    requires Advances(p)
    ensures Many1(p)(s) == Many1Recursive(p)(s)
  {
    match p(s)
    case None =>
    case Some((v, out)) =>
      ManySpec(p, out);
      var (vs, rest) := Iterate(p, out);
      assert Iterate(p, s) == ([v] + vs, rest);
      assert PrependTo(p, v)(out) == Return(Cons(v, Array(vs)))(rest);
  }

  /** Puts a value in front of an array (`many` only ever yields arrays). */
  function Cons(v: Val, w: Val): Val
  {
    match w
    case Array(xs) => Array([v] + xs)
    case Text(_) => Array([v, w])
  }

  /** `many` never fails: it yields every value `p` produces in order, and
      the empty array with the input untouched when `p` fails at once. */
  lemma ManySpec(p: Parser, s: seq<char>)
    requires Advances(p)
    ensures Many(p)(s) == Some((Array(Iterate(p, s).0), Iterate(p, s).1))
    ensures p(s).None? ==> Many(p)(s) == Some((Array([]), s))
  {
  }

  /** `skipMany1` fails iff `p` fails on the input; otherwise it yields ''
      and stops where `many1` stops. */
  lemma SkipMany1Spec(p: Parser, s: seq<char>)
    requires Advances(p)
    ensures SkipMany1(p)(s) ==
              if p(s).None? then None else Some((Text(""), Iterate(p, s).1))
  {
  }

  /** `skipMany` never fails and yields ''. */
  lemma SkipManySpec(p: Parser, s: seq<char>)
    requires Advances(p)
    ensures SkipMany(p)(s) == Some((Text(""), Iterate(p, s).1))
  {
    SkipMany1Spec(p, s);
  }

  lemma Many1Advances(p: Parser)
    requires Advances(p)
    ensures Advances(Many1(p))
  {
  }

  lemma ManyConsumes(p: Parser)
    requires Advances(p)
    ensures Consumes(Many(p))
  {
    forall s ensures Many(p)(s).Some? ==> IsSuffix(Many(p)(s).value.1, s) {
      ManySpec(p, s);
    }
  }

  lemma SkipMany1Advances(p: Parser)
    requires Advances(p)
    ensures Advances(SkipMany1(p))
  {
    forall s ensures SkipMany1(p)(s).Some? ==> IsStrictSuffix(SkipMany1(p)(s).value.1, s) {
      SkipMany1Spec(p, s);
    }
  }

  lemma SkipManyConsumes(p: Parser)
    requires Advances(p)
    ensures Consumes(SkipMany(p))
  {
    forall s ensures SkipMany(p)(s).Some? ==> IsSuffix(SkipMany(p)(s).value.1, s) {
      SkipManySpec(p, s);
    }
  }
}
