/** `seq` and `seq_s`: run parsers left to right, each on the remainder of
    its predecessor, and hand the collected values to a reducer. */
module Sequencing {
  import opened Values
  import opened Primitives

  /** Reference definition: run `ps` in order, threading the remainder, and
      collect their values; fail as soon as one of them fails. */
  function Collect(ps: seq<Parser>, inp: seq<char>): (r: Option<(seq<Val>, seq<char>)>)
    ensures r.Some? ==> |r.value.0| == |ps|
    decreases |ps|
  {
    if ps == [] then Some(([], inp))
    else
      match ps[0](inp)
      case None => None
      case Some((v, out)) =>
        match Collect(ps[1..], out)
        case None => None
        case Some((vs, rest)) => Some(([v] + vs, rest))
  }

  /** Every list of `n` values is a valid argument list for `final`. */
  ghost predicate Accepts(final: Reducer, n: nat)
  {
    forall vs: seq<Val> :: |vs| == n ==> final.requires(vs)
  }

  /** The nested `then` chain that `seq` builds, one link per parser; the
      accumulator is an argument of each link rather than a variable that
      all links share. */
  function Chain(final: Reducer, ps: seq<Parser>, acc: seq<Val>): Parser
    requires ps != []
    requires Accepts(final, |acc| + |ps|)
    decreases |ps|
  {
    if |ps| == 1 then Then(ps[0], x => Return(final(acc + [x])))
    else Then(ps[0], x => Chain(final, ps[1..], acc + [x]))
  }

  /** `seq($final, ...$ps)`: every call starts from an empty accumulator. */
  function Seq(final: Reducer, ps: seq<Parser>): Parser
    requires ps != []
    requires Accepts(final, |ps|)
  {
    Chain(final, ps, [])
  }

  /** The reducer of `seq_s`: the in-order text of all values. */
  function Concat(vs: seq<Val>): Val
  {
    Text(ToS("", vs))
  }

  /** `seq_s(...$funcs)`. */
  function SeqS(ps: seq<Parser>): Parser
    requires ps != []
  {
    Seq(Concat, ps)
  }

  /** A link of the chain yields the reducer applied to what came before and
      to everything the remaining links collect. */
  lemma {:induction false} ChainCollects(final: Reducer, ps: seq<Parser>, acc: seq<Val>, s: seq<char>)
    requires ps != []
    requires Accepts(final, |acc| + |ps|)
    ensures Chain(final, ps, acc)(s) ==
              match Collect(ps, s)
              case None => None
              case Some((vs, rest)) => Some((final(acc + vs), rest))
    decreases |ps|
  {
    match ps[0](s)
    case None =>
    case Some((v, out)) =>
      if |ps| == 1 {
        assert ps[1..] == [] && [v] + [] == [v];
        assert Collect(ps, s) == Some(([v], out));
        assert Chain(final, ps, acc)(s) == Return(final(acc + [v]))(out);
      } else {
        ChainCollects(final, ps[1..], acc + [v], out);
        match Collect(ps[1..], out)
        case None =>
        case Some((vs, rest)) =>
          assert acc + [v] + vs == acc + ([v] + vs);
      }
  }

  /** `seq` fails iff the sequential run fails; otherwise the reducer receives
      the values in order and the remainder is that of the last parser. */
  lemma SeqCollects(final: Reducer, ps: seq<Parser>, s: seq<char>)
    requires ps != []
    requires Accepts(final, |ps|)
    ensures Seq(final, ps)(s) ==
              match Collect(ps, s)
              case None => None
              case Some((vs, rest)) => Some((final(vs), rest))
  {
    ChainCollects(final, ps, [], s);
    match Collect(ps, s)
    case None =>
    case Some((vs, rest)) =>
      assert [] + vs == vs;
  }

  /** Running `ps + qs` runs `ps`, then `qs` on what `ps` left over. */
  lemma {:induction false} CollectAppend(ps: seq<Parser>, qs: seq<Parser>, s: seq<char>)
    ensures Collect(ps + qs, s) ==
              match Collect(ps, s)
              case None => None
              case Some((vs, mid)) =>
                match Collect(qs, mid)
                case None => None
                case Some((ws, rest)) => Some((vs + ws, rest))
    decreases |ps|
  {
    if ps == [] {
      assert ps + qs == qs;
      match Collect(qs, s)
      case None =>
      case Some((ws, rest)) =>
        assert [] + ws == ws;
    } else {
      assert (ps + qs)[0] == ps[0] && (ps + qs)[1..] == ps[1..] + qs;
      match ps[0](s)
      case None =>
      case Some((v, out)) =>
        CollectAppend(ps[1..], qs, out);
        match Collect(ps[1..], out)
        case None =>
        case Some((vs, mid)) =>
          match Collect(qs, mid)
          case None =>
          case Some((ws, rest)) =>
            assert [v] + (vs + ws) == [v] + vs + ws;
    }
  }

  /** The `k`-th parser runs on the remainder its predecessors left, and its
      value is appended after theirs. */
  lemma CollectStep(ps: seq<Parser>, k: nat, s: seq<char>)
    requires k < |ps|
    ensures Collect(ps[..k + 1], s) ==
              match Collect(ps[..k], s)
              case None => None
              case Some((vs, mid)) =>
                match ps[k](mid)
                case None => None
                case Some((v, rest)) => Some((vs + [v], rest))
  {
    assert ps[..k + 1] == ps[..k] + [ps[k]];
    CollectAppend(ps[..k], [ps[k]], s);
    match Collect(ps[..k], s)
    case None =>
    case Some((vs, mid)) =>
      assert [ps[k]][1..] == [];
      assert Collect([ps[k]][1..], mid) == Some(([], mid));
      match ps[k](mid)
      case None =>
      case Some((v, rest)) =>
        assert [ps[k]][0] == ps[k] && [v] + [] == [v];
        assert Collect([ps[k]], mid) == Some(([v], rest));
  }

  /** Once a prefix of the parsers fails, the whole sequence fails, whatever
      the parsers after it would do. */
  lemma CollectFailsEarly(ps: seq<Parser>, k: nat, s: seq<char>)
    requires k <= |ps|
    requires Collect(ps[..k], s).None?
    ensures Collect(ps, s).None?
  {
    assert ps == ps[..k] + ps[k..];
    CollectAppend(ps[..k], ps[k..], s);
  }

  /** The sequential run drops only a prefix when every parser does, and
      makes progress when in addition one of them does. */
  lemma {:induction false} CollectConsumes(ps: seq<Parser>, s: seq<char>)
    requires forall i :: 0 <= i < |ps| ==> Consumes(ps[i])
    requires Collect(ps, s).Some?
    ensures IsSuffix(Collect(ps, s).value.1, s)
    ensures (exists i :: 0 <= i < |ps| && Advances(ps[i])) ==>
              IsStrictSuffix(Collect(ps, s).value.1, s)
    decreases |ps|
  {
    if ps != [] {
      var (v, out) := ps[0](s).value;
      assert forall i :: 0 < i < |ps| ==> ps[1..][i - 1] == ps[i];
      CollectConsumes(ps[1..], out);
      SuffixTransitive(Collect(ps, s).value.1, out, s);
    }
  }

  lemma SeqConsumes(final: Reducer, ps: seq<Parser>)
    requires ps != []
    requires Accepts(final, |ps|)
    requires forall i :: 0 <= i < |ps| ==> Consumes(ps[i])
    ensures Consumes(Seq(final, ps))
    ensures (exists i :: 0 <= i < |ps| && Advances(ps[i])) ==> Advances(Seq(final, ps))
  {
    forall s | Seq(final, ps)(s).Some?
      ensures IsSuffix(Seq(final, ps)(s).value.1, s)
      ensures (exists i :: 0 <= i < |ps| && Advances(ps[i])) ==>
                IsStrictSuffix(Seq(final, ps)(s).value.1, s)
    {
      SeqCollects(final, ps, s);
      CollectConsumes(ps, s);
    }
  }

  /** `seq_s` yields the in-order text of its parsers' values. */
  lemma SeqSCollects(ps: seq<Parser>, s: seq<char>)
    requires ps != []
    ensures SeqS(ps)(s) ==
              match Collect(ps, s)
              case None => None
              case Some((vs, rest)) => Some((Text(Flatten(vs)), rest))
  {
    SeqCollects(Concat, ps, s);
    match Collect(ps, s)
    case None =>
    case Some((vs, rest)) =>
      ToSAppendsFlatten("", vs);
      assert "" + Flatten(vs) == Flatten(vs);
  }

  /** Running one, two or three parsers, spelled out. */
  lemma CollectOne(a: Parser, s: seq<char>)
    ensures Collect([a], s) ==
              match a(s)
              case None => None
              case Some((x, s1)) => Some(([x], s1))
  {
    assert [a][1..] == [];
    match a(s)
    case None =>
    case Some((x, s1)) =>
      assert [x] + [] == [x];
  }

  lemma CollectTwo(a: Parser, b: Parser, s: seq<char>)
    ensures Collect([a, b], s) ==
              match a(s)
              case None => None
              case Some((x, s1)) =>
                match b(s1)
                case None => None
                case Some((y, s2)) => Some(([x, y], s2))
  {
    assert [a, b][1..] == [b];
    match a(s)
    case None =>
    case Some((x, s1)) =>
      CollectOne(b, s1);
      match b(s1)
      case None =>
      case Some((y, s2)) =>
        assert [x] + [y] == [x, y];
  }

  lemma CollectThree(a: Parser, b: Parser, c: Parser, s: seq<char>)
    ensures Collect([a, b, c], s) ==
              match a(s)
              case None => None
              case Some((x, s1)) =>
                match b(s1)
                case None => None
                case Some((y, s2)) =>
                  match c(s2)
                  case None => None
                  case Some((z, s3)) => Some(([x, y, z], s3))
  {
    assert [a, b, c][1..] == [b, c];
    match a(s)
    case None =>
    case Some((x, s1)) =>
      CollectTwo(b, c, s1);
      match Collect([b, c], s1)
      case None =>
      case Some((ys, s3)) =>
        assert [x] + ys == [x, ys[0], ys[1]];
  }

  /** `seq` over two or three parsers, spelled out. */
  lemma SeqTwo(final: Reducer, a: Parser, b: Parser, s: seq<char>)
    requires Accepts(final, 2)
    ensures Seq(final, [a, b])(s) ==
              match a(s)
              case None => None
              case Some((x, s1)) =>
                match b(s1)
                case None => None
                case Some((y, s2)) => Some((final([x, y]), s2))
  {
    SeqCollects(final, [a, b], s);
    CollectTwo(a, b, s);
  }

  lemma SeqThree(final: Reducer, a: Parser, b: Parser, c: Parser, s: seq<char>)
    requires Accepts(final, 3)
    ensures Seq(final, [a, b, c])(s) ==
              match a(s)
              case None => None
              case Some((x, s1)) =>
                match b(s1)
                case None => None
                case Some((y, s2)) =>
                  match c(s2)
                  case None => None
                  case Some((z, s3)) => Some((final([x, y, z]), s3))
  {
    SeqCollects(final, [a, b, c], s);
    CollectThree(a, b, c, s);
  }

  /** `seq_s` over one, two or three parsers, spelled out. */
  lemma SeqSOne(a: Parser, s: seq<char>)
    ensures SeqS([a])(s) ==
              match a(s)
              case None => None
              case Some((x, s1)) => Some((Text(Flatten([x])), s1))
  {
    SeqSCollects([a], s);
    CollectOne(a, s);
  }

  lemma SeqSTwo(a: Parser, b: Parser, s: seq<char>)
    ensures SeqS([a, b])(s) ==
              match a(s)
              case None => None
              case Some((x, s1)) =>
                match b(s1)
                case None => None
                case Some((y, s2)) => Some((Text(Flatten([x, y])), s2))
  {
    SeqSCollects([a, b], s);
    CollectTwo(a, b, s);
  }

  lemma SeqSThree(a: Parser, b: Parser, c: Parser, s: seq<char>)
    ensures SeqS([a, b, c])(s) ==
              match a(s)
              case None => None
              case Some((x, s1)) =>
                match b(s1)
                case None => None
                case Some((y, s2)) =>
                  match c(s2)
                  case None => None
                  case Some((z, s3)) => Some((Text(Flatten([x, y, z])), s3))
  {
    SeqSCollects([a, b, c], s);
    CollectThree(a, b, c, s);
  }

  /** A run of `seq($final, ...$ps)` as the source performs it: each parser
      in turn on the current remainder, its value appended to an accumulator
      that is local to this run. */
  method RunSeq(final: Reducer, ps: seq<Parser>, inp: seq<char>) returns (res: Result)
    requires ps != []
    requires Accepts(final, |ps|)
    ensures res == Seq(final, ps)(inp)
  {
    SeqCollects(final, ps, inp);
    var acc: seq<Val> := [];
    var rest := inp;
    var i := 0;
    while i < |ps|
      invariant 0 <= i <= |ps|
      invariant Collect(ps[..i], inp) == Some((acc, rest))
    {
      CollectStep(ps, i, inp);
      match ps[i](rest)
      case None =>
        CollectFailsEarly(ps, i + 1, inp);
        return None;
      case Some((v, out)) =>
        acc := acc + [v];
        rest := out;
      i := i + 1;
    }
    assert ps[..|ps|] == ps;
    res := Some((final(acc), rest));
  }
}
