/**
 Concrete operation sequences on the draw pool: the two on which the code as
 written departs from what its comments describe (a refill only for the first
 draw, line 145; drawn names that do not repeat, line 5), each next to its
 repaired counterpart.
 */
module Traces {
  import opened Text
  import opened Validation
  import opened Seqs
  import opened Pool
  import opened CorrectedPool
  import opened NameExamples

  /** Four plain names whose initials differ pairwise ignoring case. */
  predicate FourFriends(a: string, e: string, i: string, n: string) {
    && PlainName(a) && PlainName(e) && PlainName(i) && PlainName(n)
    && FreshInitial(e, [a]) && FreshInitial(i, [a, e]) && FreshInitial(n, [a])
  }

  lemma FourFriendsDistinct(a: string, e: string, i: string, n: string)
    requires FourFriends(a, e, i, n)
    ensures a != e && a != i && e != i && a != n
  {
    assert a in [a] && a in [a, e] && e in [a, e];
  }

  /** A name that passes the check unchanged is appended to the roster, and to
      the pool as lines 66-72 do. */
  lemma AddValid(s: State, raw: string)
    requires Validate(raw, s.roster).valid && Validate(raw, s.roster).cleaned == raw
    ensures AddName(s, raw).state ==
      State(s.roster + [raw], s.drawn, (if |s.drawn| == 0 then s.roster else s.available) + [raw])
  {
  }

  lemma JoinFirst(a: string)
    requires PlainName(a)
    ensures AddName(Initial, a).state == State([a], [], [a])
  {
    PlainNameAdmitted(a, []);
    AddValid(Initial, a);
    Single(a);
  }

  lemma JoinSecond(a: string, e: string)
    requires PlainName(e) && FreshInitial(e, [a])
    ensures AddName(State([a], [], [a]), e).state == State([a, e], [], [a, e])
  {
    PlainNameAdmitted(e, [a]);
    AddValid(State([a], [], [a]), e);
    Pair(a, e);
  }

  lemma JoinThird(a: string, e: string, i: string)
    requires PlainName(i) && FreshInitial(i, [a, e])
    ensures AddName(State([a, e], [], [a, e]), i).state == State([a, e, i], [], [a, e, i])
  {
    PlainNameAdmitted(i, [a, e]);
    AddValid(State([a, e], [], [a, e]), i);
    Triple(a, e, i);
  }

  /** A friend joining while a cycle is under way goes straight into the pool. */
  lemma JoinMidCycle(a: string, n: string, pool: seq<string>)
    requires PlainName(n) && FreshInitial(n, [a])
    ensures AddName(State([a], [a], pool), n).state == State([a, n], [a], pool + [n])
  {
    PlainNameAdmitted(n, [a]);
    AddValid(State([a], [a], pool), n);
    Pair(a, n);
  }

  lemma ThreeFriendsJoin(a: string, e: string, i: string, n: string)
    requires FourFriends(a, e, i, n)
    ensures AddName(AddName(AddName(Initial, a).state, e).state, i).state == State([a, e, i], [], [a, e, i])
  {
    JoinFirst(a);
    JoinSecond(a, e);
    JoinThird(a, e, i);
  }

  /** Code as written: after both of two friends are drawn the banner says
      the draw is complete, and a third draw starts a new cycle instead of
      reporting that nobody is left, forgetting that the second was drawn. */
  lemma ThirdDrawRestarts(a: string, e: string)
    requires a != e
    ensures var s2 := State([a, e], [], [a, e]);
      var d1 := DrawName(s2, 0);
      var d2 := DrawName(d1.state, 0);
      var d3 := DrawName(d2.state, 0);
      && d1.outcome == Drawn(a) && d2.outcome == Drawn(e)
      && d2.state == State([a, e], [a, e], [])
      && StatusOf(d2.state) == Complete
      && d3.outcome == Drawn(a)
      && d3.state == State([a, e], [a], [e])
  {
    var s3 := State([a, e], [a], [e]);
    assert DrawName(State([a, e], [], [a, e]), 0).state == s3;
    var s4 := State([a, e], [a, e], []);
    assert DrawName(s3, 0).state == s4;
    assert DrawName(s4, 0).state == s3;
  }

  /** Repaired: the third draw reports that nobody is left and changes nothing. */
  lemma ThirdDrawReportsExhaustion(a: string, e: string)
    requires a != e
    ensures var s2 := State([a, e], [], [a, e]);
      var d1 := DrawFixed(s2, 0);
      var d2 := DrawFixed(d1.state, 0);
      var d3 := DrawFixed(d2.state, 0);
      && d1.outcome == Drawn(a) && d2.outcome == Drawn(e)
      && d3.outcome == NoneLeft
      && d3.state == State([a, e], [a, e], [])
      && StatusOf(d3.state) == Complete
  {
    var s3 := State([a, e], [a], [e]);
    assert DrawFixed(State([a, e], [], [a, e]), 0).state == s3;
    var s4 := State([a, e], [a, e], []);
    assert DrawFixed(s3, 0).state == s4;
  }

  lemma DrawFirstOfThree(a: string, e: string, i: string)
    ensures DrawName(State([a, e, i], [], [a, e, i]), 0) == DrawResult(State([a, e, i], [a], [e, i]), Drawn(a))
  {
    DropFirstOfThree(a, e, i);
    Single(a);
  }

  lemma FixedDrawFirstOfThree(a: string, e: string, i: string)
    ensures DrawFixed(State([a, e, i], [], [a, e, i]), 0) == DrawResult(State([a, e, i], [a], [e, i]), Drawn(a))
  {
    DropFirstOfThree(a, e, i);
    Single(a);
  }

  /** Code as written, after the faulty resync: the drawn friend is drawn again. */
  lemma DrawAgain(a: string, n: string)
    ensures DrawName(State([a, n], [a], [a, n]), 0) == DrawResult(State([a, n], [a, a], [n]), Drawn(a))
  {
    assert RemoveAt([a, n], 0) == [n];
    assert [a] + [a] == [a, a];
  }

  /** Repaired: the only undrawn friend is drawn. */
  lemma DrawNewcomer(a: string, n: string)
    ensures DrawFixed(State([a, n], [a], [n]), 0) == DrawResult(State([a, n], [a, n], []), Drawn(n))
  {
    assert RemoveAt([n], 0) == [];
    assert [a] + [n] == [a, n];
  }

  /** Code as written: three friends join, the first is drawn, the other two
      are removed. The resync after the last removal copies the roster into
      the pool while the first friend is still drawn, so that friend is both
      drawn and available; once a fourth friend joins, the first one is drawn
      a second time in the same cycle. */
  lemma ResyncBreaksDisjointness(a: string, e: string, i: string, n: string)
    requires FourFriends(a, e, i, n)
    ensures AddName(AddName(AddName(Initial, a).state, e).state, i).state == State([a, e, i], [], [a, e, i])
    ensures DrawName(State([a, e, i], [], [a, e, i]), 0) == DrawResult(State([a, e, i], [a], [e, i]), Drawn(a))
    ensures RemoveName(RemoveName(State([a, e, i], [a], [e, i]), 1).state, 1).state == State([a], [a], [a])
    ensures Inv(State([a], [a], [a])) && !Disjoint(State([a], [a], [a]))
    ensures AddName(State([a], [a], [a]), n).state == State([a, n], [a], [a, n])
    ensures DrawName(State([a, n], [a], [a, n]), 0) == DrawResult(State([a, n], [a, a], [n]), Drawn(a))
  {
    ThreeFriendsJoin(a, e, i, n);
    DrawFirstOfThree(a, e, i);
    ResyncAfterRemovals(a, e, i, n);
    JoinMidCycle(a, n, [a]);
    DrawAgain(a, n);
  }

  /** Removing the second of three participants while only the first is drawn. */
  lemma WithdrawMiddle(a: string, e: string, i: string)
    requires a != e && e != i
    ensures Withdraw(State([a, e, i], [a], [e, i]), 1) == RemoveResult(State([a, i], [a], [i]), Removed(e))
  {
    var s := State([a, e, i], [a], [e, i]);
    assert s.roster[1] == e && e !in s.drawn;
    DropSecondOfThree(a, e, i);
    DropLeading(e, i);
    var r := Withdraw(s, 1);
    assert r.state == State([a, i], [a], [i]);
  }

  /** Removing the last undrawn participant: the pool becomes empty. */
  lemma WithdrawLast(a: string, i: string)
    requires a != i
    ensures Withdraw(State([a, i], [a], [i]), 1) == RemoveResult(State([a], [a], []), Removed(i))
  {
    var s := State([a, i], [a], [i]);
    assert s.roster[1] == i && i !in s.drawn;
    DropSecondOfTwo(a, i);
    DropOnly(i);
    var r := Withdraw(s, 1);
    assert r.state == State([a], [a], []);
  }

  lemma ResyncAfterRemovals(a: string, e: string, i: string, n: string)
    requires FourFriends(a, e, i, n)
    ensures RemoveName(RemoveName(State([a, e, i], [a], [e, i]), 1).state, 1).state == State([a], [a], [a])
    ensures Inv(State([a], [a], [a])) && !Disjoint(State([a], [a], [a]))
  {
    FourFriendsDistinct(a, e, i, n);
    WithdrawMiddle(a, e, i);
    WithdrawLast(a, i);
    assert EqualIgnoringCase(a, a);
  }

  /** Repaired: the same operations leave the first friend drawn only, the
      pool empty, and the next draw picks the fourth friend. */
  lemma ResyncFixedKeepsDisjointness(a: string, e: string, i: string, n: string)
    requires FourFriends(a, e, i, n)
    ensures AddName(AddName(AddName(Initial, a).state, e).state, i).state == State([a, e, i], [], [a, e, i])
    ensures DrawFixed(State([a, e, i], [], [a, e, i]), 0) == DrawResult(State([a, e, i], [a], [e, i]), Drawn(a))
    ensures RemoveFixed(RemoveFixed(State([a, e, i], [a], [e, i]), 1).state, 1).state == State([a], [a], [])
    ensures FixedInv(State([a], [a], []))
    ensures AddName(State([a], [a], []), n).state == State([a, n], [a], [n])
    ensures DrawFixed(State([a, n], [a], [n]), 0) == DrawResult(State([a, n], [a, n], []), Drawn(n))
  {
    ThreeFriendsJoin(a, e, i, n);
    FixedDrawFirstOfThree(a, e, i);
    FixedResyncAfterRemovals(a, e, i, n);
    JoinMidCycle(a, n, []);
    Single(n);
    DrawNewcomer(a, n);
  }

  lemma FixedResyncAfterRemovals(a: string, e: string, i: string, n: string)
    requires FourFriends(a, e, i, n)
    ensures RemoveFixed(RemoveFixed(State([a, e, i], [a], [e, i]), 1).state, 1).state == State([a], [a], [])
    ensures FixedInv(State([a], [a], []))
  {
    FourFriendsDistinct(a, e, i, n);
    WithdrawMiddle(a, e, i);
    WithdrawLast(a, i);
    NothingUndrawn(a);
    LoneDrawnFixedInv(a);
  }

  lemma NothingUndrawn(a: string)
    ensures ResyncFixed(State([a], [a], [])) == State([a], [a], [])
  {
    assert Undrawn([a], [a]) == [];
  }

  lemma LoneDrawnFixedInv(a: string)
    ensures FixedInv(State([a], [a], []))
  {
    assert EqualIgnoringCase(a, a);
  }

  // ---------------------------------------------------------------------------
  // Identities between sequence displays. They say nothing about the widget;
  // they are stated once here so that the traces above need not rediscover
  // them inside larger proofs.

  lemma Single<T>(x: T)
    ensures [] + [x] == [x]
  {
  }

  lemma Pair<T>(x: T, y: T)
    ensures [x] + [y] == [x, y]
  {
  }

  lemma Triple<T>(x: T, y: T, z: T)
    ensures [x, y] + [z] == [x, y, z]
  {
  }

  lemma DropFirstOfThree<T>(x: T, y: T, z: T)
    ensures RemoveAt([x, y, z], 0) == [y, z]
  {
  }

  lemma DropSecondOfThree<T>(x: T, y: T, z: T)
    ensures RemoveAt([x, y, z], 1) == [x, z]
  {
  }

  lemma DropSecondOfTwo<T>(x: T, y: T)
    ensures RemoveAt([x, y], 1) == [x]
  {
  }

  lemma DropLeading(x: string, y: string)
    requires x != y
    ensures RemoveFirst([x, y], x) == [y]
  {
    assert RemoveAt([x, y], 0) == [y];
  }

  lemma DropOnly(x: string)
    ensures RemoveFirst([x], x) == []
  {
  }
}
