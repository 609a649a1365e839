/** Resources that are numbered as they are acquired, and given back at most once. */
module Ownership {

  /** Each of the first `n` is held once or has been given back once, and nothing else is either. */
  ghost predicate Once(held: seq<nat>, back: seq<nat>, n: nat) {
    forall h: nat :: (multiset(held) + multiset(back))[h] == if h < n then 1 else 0
  }

  lemma Acquired(held: seq<nat>, back: seq<nat>, n: nat)
    requires Once(held, back, n)
    ensures Once([n] + held, back, n + 1) && Once(held + [n], back, n + 1) && Once(held, back + [n], n + 1)
    ensures n !in held && n !in back
  {
    var all := multiset(held) + multiset(back);
    assert all[n] == 0;
    assert multiset([n] + held) + multiset(back) == all + multiset{n};
    assert multiset(held + [n]) + multiset(back) == all + multiset{n};
    assert multiset(held) + multiset(back + [n]) == all + multiset{n};
  }

  /** Giving back the `i`th of those held is legal, and leaves the rest held. */
  lemma GivenBack(held: seq<nat>, back: seq<nat>, n: nat, i: nat)
    requires Once(held, back, n) && i < |held|
    ensures var rest := held[..i] + held[i + 1..];
            && Once(rest, back + [held[i]], n)
            && held[i] !in back && held[i] < n
            && forall h :: h in rest <==> h in held && h != held[i]
  {
    var h, rest := held[i], held[..i] + held[i + 1..];
    assert held == held[..i] + [h] + held[i + 1..];
    assert multiset(held) == multiset(rest) + multiset{h};
    assert multiset(rest) + multiset(back + [h]) == multiset(held) + multiset(back);
    assert (multiset(held) + multiset(back))[h] >= 1;
    assert multiset(rest)[h] == 0;
    assert forall x :: x in held <==> x in multiset(held);
    assert forall x :: x in rest <==> x in multiset(rest);
  }

  lemma AllBack(back: seq<nat>, n: nat)
    requires Once([], back, n)
    ensures forall h: nat :: multiset(back)[h] == if h < n then 1 else 0
  {
    forall h: nat
      ensures multiset(back)[h] == if h < n then 1 else 0
    {
      assert (multiset([]) + multiset(back))[h] == multiset(back)[h];
    }
  }
}
