/** The basic parsers `_return`, `failure` and `item`, and the monadic
    sequencing `then`. */
module Primitives {
  import opened Values

  /** `_return($s)`: succeeds with `v` and leaves the input untouched. */
  function Return(v: Val): Parser
  {
    inp => Some((v, inp))
  }

  /** `failure()`: fails on every input. */
  function Failure(): Parser
  {
    inp => None
  }

  /** `item()`: the first character of a nonempty input, and the rest. */
  function Item(): Parser
  {
    inp => if inp == [] then None else Some((Text([inp[0]]), inp[1..]))
  }

  /** `then($p, $fp)`: runs `p`; on success the value chooses the parser
      that runs on what `p` left over. */
  function Then(p: Parser, fp: Val -> Parser): Parser
  {
    inp =>
      match p(inp)
      case None => None
      case Some((v, out)) => fp(v)(out)
  }

  lemma ReturnSpec(v: Val, s: seq<char>)
    ensures Return(v)(s) == Some((v, s))
  {
  }

  lemma FailureSpec(s: seq<char>)
    ensures Failure()(s) == None
  {
  }

  /** `item` fails exactly on the empty input; otherwise it yields the first
      character and a remainder one shorter. */
  lemma ItemSpec(s: seq<char>)
    ensures Item()(s).None? <==> s == []
    ensures Item()(s).Some? ==>
              Item()(s).value == (Text([s[0]]), s[1..]) && |Item()(s).value.1| == |s| - 1
  {
  }

  /** A failing `p` makes `then` fail; `fp` is never consulted. */
  lemma ThenFailure(p: Parser, fp: Val -> Parser, s: seq<char>)
    requires p(s).None?
    ensures Then(p, fp)(s).None?
  {
  }

  /** A successful `p` hands its remainder to the parser its value selects. */
  lemma ThenSuccess(p: Parser, fp: Val -> Parser, s: seq<char>)
    requires p(s).Some?
    ensures Then(p, fp)(s) == fp(p(s).value.0)(p(s).value.1)
  {
  }

  /** Left identity: `then(_return(v), f)` behaves as `f(v)`. */
  lemma ThenLeftIdentity(v: Val, f: Val -> Parser, s: seq<char>)
    ensures Then(Return(v), f)(s) == f(v)(s)
  {
  }

  /** Right identity: `then(p, _return)` behaves as `p`. */
  lemma ThenRightIdentity(p: Parser, s: seq<char>)
    ensures Then(p, x => Return(x))(s) == p(s)
  {
  }

  /** Associativity of `then`. */
  lemma ThenAssociative(p: Parser, f: Val -> Parser, g: Val -> Parser, s: seq<char>)
    ensures Then(Then(p, f), g)(s) == Then(p, x => Then(f(x), g))(s)
  {
    if p(s).Some? {
      var (v, out) := p(s).value;
      assert Then(Then(p, f), g)(s) == Then(f(v), g)(out);
    }
  }

  lemma ReturnConsumes(v: Val)
    ensures Consumes(Return(v))
  {
  }

  lemma FailureAdvances()
    ensures Advances(Failure())
  {
  }

  /** `item` is the primitive that makes progress. */
  lemma ItemAdvances()
    ensures Advances(Item())
  {
    forall s | Item()(s).Some?
      ensures IsStrictSuffix(Item()(s).value.1, s)
    {
      assert s[|s| - |s[1..]|..] == s[1..];
    }
  }

  /** `then` drops only a prefix when both stages do, and makes progress when
      in addition one of them does. */
  lemma ThenConsumes(p: Parser, fp: Val -> Parser)
    requires Consumes(p)
    requires forall v :: Consumes(fp(v))
    ensures Consumes(Then(p, fp))
    ensures Advances(p) || (forall v :: Advances(fp(v))) ==> Advances(Then(p, fp))
  {
    forall s | Then(p, fp)(s).Some?
      ensures IsSuffix(Then(p, fp)(s).value.1, s)
      ensures Advances(p) || (forall v :: Advances(fp(v))) ==>
                IsStrictSuffix(Then(p, fp)(s).value.1, s)
    {
      var (v, out) := p(s).value;
      SuffixTransitive(Then(p, fp)(s).value.1, out, s);
    }
  }
}
