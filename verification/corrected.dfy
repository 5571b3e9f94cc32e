/**
 The draw pool with the two repairs its own comments call for: the resync of
 `verificarEstadoJuego` refills an empty pool with the participants not yet
 drawn (instead of the whole roster), and `sortearAmigo` refills only for the
 first draw of a cycle (so an exhausted pool is reported instead of silently
 restarted). Admission and the removal splices are unchanged.
 */
module CorrectedPool {
  import opened Seqs
  import opened Pool

  /** The participants of `roster` not in `drawn`, in roster order. */
  function Undrawn(roster: seq<string>, drawn: seq<string>): (r: seq<string>)
    ensures forall x :: x in r <==> x in roster && x !in drawn
    ensures NoDuplicates(roster) ==> NoDuplicates(r)
    decreases |roster|
  {
    if roster == [] then []
    else
      var rest := Undrawn(roster[1..], drawn);
      assert NoDuplicates(roster) ==> roster[0] !in roster[1..];
      (if roster[0] in drawn then [] else [roster[0]]) + rest
  }

  /** Lines 173-175 repaired: an empty pool is refilled with the participants
      not yet drawn. */
  function ResyncFixed(s: State): (r: State)
    ensures r.roster == s.roster && r.drawn == s.drawn
    ensures |s.available| > 0 ==> r == s
    ensures |s.available| == 0 ==> forall x :: x in r.available <==> x in s.roster && x !in s.drawn
  {
    if |s.available| == 0 && |s.roster| > 0 then s.(available := Undrawn(s.roster, s.drawn)) else s
  }

  /** The array the repaired draw picks from: the roster only for the first draw of a cycle. */
  function DrawSourceFixed(s: State): seq<string> {
    if |s.available| == 0 && |s.drawn| == 0 then s.roster else s.available
  }

  /** Lines 133-163 repaired: lines 146-149 refill only when nothing has been
      drawn yet, so lines 152-154 report an exhausted pool. */
  function DrawFixed(s: State, i: nat): (r: DrawResult)
    requires |s.roster| >= 2 && |DrawSourceFixed(s)| > 0 ==> i < |DrawSourceFixed(s)|
    ensures r.state.roster == s.roster
    ensures |s.roster| < 2 ==> r.state == s && r.outcome == (if |s.roster| == 0 then NeedFriends else NeedTwoFriends)
    ensures |s.roster| >= 2 && !(|s.available| == 0 && |s.drawn| > 0) ==> r.outcome.Drawn?
    ensures r.outcome == NoneLeft <==> |s.roster| >= 2 && |s.available| == 0 && |s.drawn| > 0
    ensures r.outcome == NoneLeft ==> r.state == s
    ensures r.outcome.Drawn? ==>
      && |s.roster| >= 2 && i < |DrawSourceFixed(s)|
      && r.outcome.name == DrawSourceFixed(s)[i]
      && r.state.available == RemoveAt(DrawSourceFixed(s), i)
      && r.state.drawn == s.drawn + [r.outcome.name]
  {
    if |s.roster| == 0 then DrawResult(s, NeedFriends)
    else if |s.roster| == 1 then DrawResult(s, NeedTwoFriends)
    else
      var t := if |s.available| == 0 && |s.drawn| == 0 then State(s.roster, [], s.roster) else s;
      if |t.available| == 0 then DrawResult(t, NoneLeft)
      else
        var name := t.available[i];
        DrawResult(State(t.roster, t.drawn + [name], RemoveAt(t.available, i)), Drawn(name))
  }

  /** Away from an exhausted pool the repaired draw is the draw as written. */
  lemma DrawFixedAgrees(s: State, i: nat)
    requires !(|s.roster| >= 2 && |s.available| == 0 && |s.drawn| > 0)
    requires |s.roster| >= 2 ==> i < |DrawSource(s)|
    ensures DrawFixed(s, i) == DrawName(s, i)
  {
  }

  /** Removal with the repaired resync after the splices. It keeps the
      repaired invariant, and it differs from removal as written only in the
      pool, and exactly when removal as written puts a drawn name back. */
  function RemoveFixed(s: State, index: nat): (r: RemoveResult)
    ensures r.outcome == RemoveName(s, index).outcome
    ensures r.state.roster == RemoveName(s, index).state.roster
    ensures r.state.drawn == RemoveName(s, index).state.drawn
    ensures Inv(s) ==>
      (r.state == RemoveName(s, index).state <==>
        !(r.outcome != AlreadyDrawn && |Withdraw(s, index).state.available| == 0
          && |Withdraw(s, index).state.roster| > 0 && s.drawn != []))
    ensures FixedInv(s) ==> FixedInv(r.state)
  {
    var w := Withdraw(s, index);
    if w.outcome == AlreadyDrawn then w
    else
      RemoveFixedVersusWritten(s, index);
      RemoveFixedKeepsInv(s, index);
      RemoveResult(ResyncFixed(w.state), w.outcome)
  }

  /** With nobody drawn, the repaired refill is the whole roster. */
  lemma {:induction false} UndrawnNothingDrawn(roster: seq<string>)
    ensures Undrawn(roster, []) == roster
    decreases |roster|
  {
    if roster != [] {
      UndrawnNothingDrawn(roster[1..]);
      assert [roster[0]] + roster[1..] == roster;
    }
  }

  lemma RemoveFixedVersusWritten(s: State, index: nat)
    ensures var w := Withdraw(s, index);
      Inv(s) && w.outcome != AlreadyDrawn ==>
        (ResyncFixed(w.state) == Resync(w.state) <==>
          !(|w.state.available| == 0 && |w.state.roster| > 0 && s.drawn != []))
  {
    var w := Withdraw(s, index);
    if Inv(s) && w.outcome != AlreadyDrawn {
      WithdrawKeepsInv(s, index);
      if |w.state.available| == 0 && |w.state.roster| > 0 {
        if s.drawn != [] {
          var x := s.drawn[0];
          assert x in w.state.drawn;
          assert x in Resync(w.state).available;
          assert x !in ResyncFixed(w.state).available;
        } else {
          UndrawnNothingDrawn(w.state.roster);
        }
      }
    }
  }

  lemma RemoveFixedKeepsInv(s: State, index: nat)
    ensures var w := Withdraw(s, index);
      FixedInv(s) && w.outcome != AlreadyDrawn ==> FixedInv(ResyncFixed(w.state))
  {
    if FixedInv(s) {
      WithdrawKeepsInv(s, index);
      WithdrawKeepsDisjoint(s, index);
      ResyncFixedKeepsInv(Withdraw(s, index).state);
    }
  }

  /** The invariant the code's own comments describe: the drawn list holds
      names that do not repeat (line 5), the pool shrinks with every draw
      (line 8), so the two split the roster between them and nobody is drawn
      twice in a cycle. */
  predicate FixedInv(s: State) {
    Inv(s) && Disjoint(s) && NoDuplicates(s.drawn)
  }

  /** One repaired operation; `None` exactly for a draw index that `Math.random`
      cannot produce. Drawing and the standalone resync never change the roster. */
  function StepFixed(s: State, op: Op): (r: Option<State>)
    ensures r.None? <==> op.Draw? && |s.roster| >= 2 && |DrawSourceFixed(s)| > 0 && op.index >= |DrawSourceFixed(s)|
    ensures r.Some? && (op.Draw? || op.Refresh?) ==> r.value.roster == s.roster
    ensures r.Some? && op.Restart? ==> r.value == Initial
  {
    match op
    case Add(raw) => Some(AddName(s, raw).state)
    case Draw(i) =>
      if |s.roster| >= 2 && |DrawSourceFixed(s)| > 0 && i >= |DrawSourceFixed(s)| then None
      else Some(DrawFixed(s, i).state)
    case Remove(k) => Some(RemoveFixed(s, k).state)
    case Restart => Some(Reset(s))
    case Refresh => Some(ResyncFixed(s))
  }

  /** A sequence of repaired operations, stopping at the first impossible draw index. */
  function RunFixed(s: State, ops: seq<Op>): Option<State>
    decreases |ops|
  {
    if ops == [] then Some(s)
    else
      match StepFixed(s, ops[0])
      case None => None
      case Some(t) => RunFixed(t, ops[1..])
  }

  lemma ResyncFixedKeepsInv(s: State)
    requires FixedInv(s)
    ensures FixedInv(ResyncFixed(s))
  {
    UniqueIsDistinct(s.roster);
  }

  lemma DrawFixedKeepsInv(s: State, i: nat)
    requires FixedInv(s)
    requires |s.roster| >= 2 && |DrawSourceFixed(s)| > 0 ==> i < |DrawSourceFixed(s)|
    ensures FixedInv(DrawFixed(s, i).state)
  {
    var r := DrawFixed(s, i);
    if r.outcome.Drawn? {
      DrawFixedAgrees(s, i);
      DrawKeepsInv(s, i);
      DrawKeepsDisjoint(s, i);
      assert r.outcome.name !in s.drawn;
    }
  }

  lemma StepFixedKeepsInv(s: State, op: Op)
    requires FixedInv(s) && StepFixed(s, op).Some?
    ensures FixedInv(StepFixed(s, op).value)
  {
    match op
    case Add(raw) =>
      AdmitKeepsInv(s, raw);
      AdmitKeepsDisjoint(s, raw);
    case Draw(i) => DrawFixedKeepsInv(s, i);
    case Remove(k) =>
    case Restart =>
    case Refresh => ResyncFixedKeepsInv(s);
  }

  /** With both repairs, every reachable state splits the roster between pool
      and drawn list, and nobody is drawn twice before a restart. */
  lemma {:induction false} RunFixedKeepsInv(s: State, ops: seq<Op>)
    requires FixedInv(s) && RunFixed(s, ops).Some?
    ensures FixedInv(RunFixed(s, ops).value)
    decreases |ops|
  {
    if ops != [] {
      StepFixedKeepsInv(s, ops[0]);
      RunFixedKeepsInv(StepFixed(s, ops[0]).value, ops[1..]);
    }
  }
}
