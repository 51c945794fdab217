/** Ordered, left-biased alternation: `orElse` and `choice`. */
module Alternation {
  import opened Values
  import opened Primitives

  /** `orElse($p, $p2)`: `p`'s result if it succeeds, otherwise `q` run on
      the same input. */
  function OrElse(p: Parser, q: Parser): Parser
  {
    inp => if p(inp).None? then q(inp) else p(inp)
  }

  /** `orElse` never looks at `q` once `p` succeeds, and retries `q` from the
      very input `p` was given. */
  lemma OrElseLeftBiased(p: Parser, q: Parser, s: seq<char>)
    ensures p(s).Some? ==> OrElse(p, q)(s) == p(s)
    ensures p(s).None? ==> OrElse(p, q)(s) == q(s)
  {
  }

  /** `failure()` is an identity of `orElse` on both sides. */
  lemma OrElseFailureIdentity(p: Parser, s: seq<char>)
    ensures OrElse(Failure(), p)(s) == p(s)
    ensures OrElse(p, Failure())(s) == p(s)
  {
  }

  lemma OrElseConsumes(p: Parser, q: Parser)
    requires Consumes(p) && Consumes(q)
    ensures Consumes(OrElse(p, q))
    ensures Advances(p) && Advances(q) ==> Advances(OrElse(p, q))
  {
  }

  /** The first success among `ps`, tried in order on the same input. */
  function FirstSuccess(ps: seq<Parser>, inp: seq<char>): (r: Result)
    ensures r.None? <==> forall i :: 0 <= i < |ps| ==> ps[i](inp).None?
    ensures r.Some? ==>
              exists i :: 0 <= i < |ps| && r == ps[i](inp) &&
                          forall j :: 0 <= j < i ==> ps[j](inp).None?
    decreases |ps|
  {
    if ps == [] then None
    else if ps[0](inp).Some? then ps[0](inp)
    else
      var r := FirstSuccess(ps[1..], inp);
      assert forall i :: 0 < i < |ps| ==> ps[i] == ps[1..][i - 1];
      if r.Some? then
        var k :| 0 <= k < |ps[1..]| && r == ps[1..][k](inp) &&
                 forall j :: 0 <= j < k ==> ps[1..][j](inp).None?;
        assert r == ps[k + 1](inp);
        r
      else r
  }

  /** `choice($ps)`. */
  function Choice(ps: seq<Parser>): Parser
  {
    inp => FirstSuccess(ps, inp)
  }

  /** The `foreach` of `choice` with its early return. */
  method RunChoice(ps: seq<Parser>, inp: seq<char>) returns (res: Result)
    ensures res == Choice(ps)(inp)
  {
    for i := 0 to |ps|
      invariant FirstSuccess(ps, inp) == FirstSuccess(ps[i..], inp)
    {
      var r := ps[i](inp);
      assert ps[i..][1..] == ps[i + 1..];
      if r.Some? {
        return r;
      }
    }
    return None;
  }

  /** `choice` is `orElse` folded over the list, with `failure` at the end. */
  lemma {:induction false} ChoiceUnfold(ps: seq<Parser>, s: seq<char>)
    ensures ps == [] ==> Choice(ps)(s) == Failure()(s)
    ensures ps != [] ==> Choice(ps)(s) == OrElse(ps[0], Choice(ps[1..]))(s)
  {
  }

  lemma ChoiceConsumes(ps: seq<Parser>)
    requires forall i :: 0 <= i < |ps| ==> Consumes(ps[i])
    ensures Consumes(Choice(ps))
    ensures (forall i :: 0 <= i < |ps| ==> Advances(ps[i])) ==> Advances(Choice(ps))
  {
  }
}
