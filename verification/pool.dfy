/**
 The draw pool of the widget, as the code is written: three arrays (the
 roster `amigos`, the drawn names `amigosSorteados`, the still-available names
 `amigosDisponibles`) and the operations that change them. The random choice
 of `sortearAmigo` is an index parameter; confirmation dialogs are already
 decided when an operation is called.
 */
module Pool {
  import opened Text
  import opened Validation
  import opened Seqs

  datatype Option<T> = None | Some(value: T)

  datatype State = State(
    roster: seq<string>,     // amigos, in insertion order
    drawn: seq<string>,      // amigosSorteados
    available: seq<string>)  // amigosDisponibles

  const Initial: State := State([], [], [])

  /** No two participants are equal ignoring case. */
  predicate UniqueIgnoringCase(names: seq<string>) {
    forall i, j :: 0 <= i < j < |names| ==> !EqualIgnoringCase(names[i], names[j])
  }

  /** Available and drawn names are participants, and every participant is one or the other. */
  predicate Covers(s: State) {
    && (forall x :: x in s.available ==> x in s.roster)
    && (forall x :: x in s.drawn ==> x in s.roster)
    && (forall x :: x in s.roster ==> x in s.available || x in s.drawn)
  }

  /** What every reachable state satisfies, resync included. */
  predicate Inv(s: State) {
    UniqueIgnoringCase(s.roster) && NoDuplicates(s.available) && Covers(s)
  }

  /** No name is both drawn and still available. */
  predicate Disjoint(s: State) {
    forall x :: x in s.available ==> x !in s.drawn
  }

  lemma UniqueIsDistinct(names: seq<string>)
    requires UniqueIgnoringCase(names)
    ensures NoDuplicates(names)
  {
  }

  lemma RemoveAtKeepsUnique(names: seq<string>, i: nat)
    requires i < |names| && UniqueIgnoringCase(names)
    ensures UniqueIgnoringCase(RemoveAt(names, i))
  {
    var r := RemoveAt(names, i);
    forall a, b | 0 <= a < b < |r| ensures !EqualIgnoringCase(r[a], r[b]) {
      var a' := if a < i then a else a + 1;
      var b' := if b < i then b else b + 1;
      assert r[a] == names[a'] && r[b] == names[b'];
    }
  }

  // ---------------------------------------------------------------------------
  // verificarEstadoJuego

  /** Lines 173-175: an empty pool is refilled with a copy of the whole roster
      (the drawn names are left as they are). */
  function Resync(s: State): (r: State)
    ensures r.roster == s.roster && r.drawn == s.drawn
    ensures |s.available| > 0 ==> r == s
    ensures |s.available| == 0 ==> r.available == s.roster
    ensures |r.available| > 0 <==> |s.available| > 0 || |s.roster| > 0
  {
    if |s.available| == 0 && |s.roster| > 0 then s.(available := s.roster) else s
  }

  /** Line 180, evaluated on the state after the resync: since the resync leaves
      the pool empty only when the roster is empty, the pool test is redundant
      and the button is enabled exactly when there are two participants. */
  function DrawEnabled(s: State): (enabled: bool)
    ensures enabled <==> |s.roster| >= 2
  {
    var t := Resync(s);
    |t.roster| >= 2 && |t.available| > 0
  }

  lemma ResyncKeepsInv(s: State)
    requires Inv(s)
    ensures Inv(Resync(s))
  {
    UniqueIsDistinct(s.roster);
  }

  /** The resync keeps drawn and available names apart unless it refills an
      empty pool while some participant is drawn: then that participant is
      both drawn and available. */
  lemma ResyncDisjointness(t: State)
    requires Inv(t) && Disjoint(t)
    ensures Disjoint(Resync(t)) <==> !(|t.available| == 0 && |t.roster| > 0 && t.drawn != [])
  {
    if |t.available| == 0 && |t.roster| > 0 && t.drawn != [] {
      assert t.drawn[0] in t.roster;
      assert t.drawn[0] in Resync(t).available;
    }
  }

  // ---------------------------------------------------------------------------
  // actualizarEstadoJuego

  datatype Status = NoFriends | ReadyToDraw | InProgress | Complete

  /** Lines 409-435: which of the four banners is shown. */
  function StatusOf(s: State): (st: Status)
    ensures st == NoFriends <==> |s.roster| == 0
    ensures st == ReadyToDraw <==> |s.roster| > 0 && |s.drawn| == 0
    ensures st == InProgress <==> |s.roster| > 0 && |s.drawn| > 0 && |s.available| > 0
    ensures st == Complete <==> |s.roster| > 0 && |s.drawn| > 0 && |s.available| == 0
  {
    if |s.roster| == 0 then NoFriends
    else if |s.drawn| == 0 then ReadyToDraw
    else if |s.available| > 0 then InProgress
    else Complete
  }

  /** On states that keep the invariant, "complete" means a non-empty roster
      with an empty pool, and then every participant has been drawn; "ready"
      means every participant is still in the pool. */
  lemma StatusMeaning(s: State)
    requires Inv(s)
    ensures StatusOf(s) == Complete <==> |s.roster| > 0 && |s.available| == 0
    ensures StatusOf(s) == Complete ==> forall x :: x in s.roster ==> x in s.drawn
    ensures StatusOf(s) == ReadyToDraw ==> forall x :: x in s.roster <==> x in s.available
  {
    if |s.roster| > 0 && |s.available| == 0 {
      assert s.roster[0] in s.drawn;
    }
  }

  // ---------------------------------------------------------------------------
  // agregarAmigo

  datatype AddOutcome = Rejected(flags: Flags) | Added(name: string)
  datatype AddResult = AddResult(state: State, outcome: AddOutcome)

  /** Lines 54-72: validate; on success append the display form to the roster,
      and either copy the roster into the pool (no draw yet) or append the new
      name to the pool (a draw cycle is under way). */
  function Admit(s: State, raw: string): (r: AddResult)
    ensures var v := Validate(raw, s.roster);
      && (!v.valid ==> r == AddResult(s, Rejected(v.flags)))
      && (v.valid ==>
        && r.outcome == Added(v.cleaned)
        && r.state.roster == s.roster + [v.cleaned]
        && r.state.drawn == s.drawn
        && r.state.available == (if |s.drawn| == 0 then s.roster else s.available) + [v.cleaned])
  {
    var v := Validate(raw, s.roster);
    if !v.valid then AddResult(s, Rejected(v.flags))
    else
      var roster := s.roster + [v.cleaned];
      var available := if |s.drawn| == 0 then roster else s.available + [v.cleaned];
      AddResult(State(roster, s.drawn, available), Added(v.cleaned))
  }

  /** An admitted name differs, ignoring case, from every participant already
      on the roster, so the roster stays free of case-insensitive duplicates. */
  lemma AdmitKeepsUnique(s: State, raw: string)
    ensures var r := Admit(s, raw);
      && (r.outcome.Added? ==> forall a :: a in s.roster ==> !EqualIgnoringCase(a, r.outcome.name))
      && (UniqueIgnoringCase(s.roster) ==> UniqueIgnoringCase(r.state.roster))
  {
    var v := Validate(raw, s.roster);
    if v.valid {
      var roster := s.roster + [v.cleaned];
      forall i, j | 0 <= i < j < |roster| ensures UniqueIgnoringCase(s.roster) ==> !EqualIgnoringCase(roster[i], roster[j]) {
        if j == |s.roster| {
          assert roster[i] in s.roster;
        }
      }
    }
  }

  /** `agregarAmigo` as a whole: the call to `verificarEstadoJuego` on line 84
      never changes the arrays, because the pool has just received a name. */
  function AddName(s: State, raw: string): (r: AddResult)
    ensures r == Admit(s, raw)
  {
    var a := Admit(s, raw);
    if a.outcome.Rejected? then a else AddResult(Resync(a.state), a.outcome)
  }

  lemma AdmitKeepsInv(s: State, raw: string)
    requires Inv(s)
    ensures Inv(Admit(s, raw).state)
  {
    var r := Admit(s, raw);
    AdmitKeepsUnique(s, raw);
    if r.outcome.Added? {
      AppendKeepsInv(s, r.outcome.name, r.state);
    }
  }

  lemma AppendKeepsInv(s: State, c: string, t: State)
    requires Inv(s) && UniqueIgnoringCase(t.roster)
    requires forall a :: a in s.roster ==> !EqualIgnoringCase(a, c)
    requires t == State(s.roster + [c], s.drawn, (if |s.drawn| == 0 then s.roster else s.available) + [c])
    ensures Inv(t)
  {
    assert EqualIgnoringCase(c, c);
    assert c !in s.roster;
    if |s.drawn| == 0 {
      UniqueIsDistinct(t.roster);
    }
  }

  lemma AdmitKeepsDisjoint(s: State, raw: string)
    requires Inv(s) && Disjoint(s)
    ensures Disjoint(Admit(s, raw).state)
  {
    AdmitKeepsUnique(s, raw);
  }

  // ---------------------------------------------------------------------------
  // sortearAmigo

  datatype DrawOutcome = NeedFriends | NeedTwoFriends | NoneLeft | Drawn(name: string)
  datatype DrawResult = DrawResult(state: State, outcome: DrawOutcome)

  /** The array `sortearAmigo` picks from once lines 146-149 have refilled an empty pool. */
  function DrawSource(s: State): seq<string> {
    if |s.available| == 0 then s.roster else s.available
  }

  /** Lines 133-163, with `i` standing for `Math.floor(Math.random() * amigosDisponibles.length)`. */
  function DrawName(s: State, i: nat): (r: DrawResult)
    requires |s.roster| >= 2 ==> i < |DrawSource(s)|
    ensures |s.roster| < 2 ==> r.state == s && r.outcome == (if |s.roster| == 0 then NeedFriends else NeedTwoFriends)
    ensures r.state.roster == s.roster
    ensures r.outcome.Drawn? ==>
      && r.outcome.name == DrawSource(s)[i]
      && r.state.available == RemoveAt(DrawSource(s), i)
      && r.state.drawn == (if |s.available| == 0 then [] else s.drawn) + [r.outcome.name]
  {
    if |s.roster| == 0 then DrawResult(s, NeedFriends)
    else if |s.roster| == 1 then DrawResult(s, NeedTwoFriends)
    else
      var t := if |s.available| == 0 then State(s.roster, [], s.roster) else s;
      if |t.available| == 0 then DrawResult(t, NoneLeft)
      else
        var name := t.available[i];
        DrawResult(State(t.roster, t.drawn + [name], RemoveAt(t.available, i)), Drawn(name))
  }

  /** The "nobody left" branch of lines 152-154 is dead: with two or more
      participants every call draws a name, and a call on an exhausted pool
      silently starts a new cycle. */
  lemma DrawNeverExhausted(s: State, i: nat)
    requires |s.roster| >= 2 && i < |DrawSource(s)|
    ensures DrawName(s, i).outcome.Drawn?
    ensures |s.available| == 0 ==> DrawName(s, i).state.drawn == [s.roster[i]]
  {
  }

  /** A draw from a non-empty pool moves exactly one name from the pool to the drawn list. */
  lemma DrawMovesOneName(s: State, i: nat)
    requires |s.roster| >= 2 && |s.available| > 0 && i < |s.available|
    ensures var r := DrawName(s, i);
      && multiset(r.state.available) + multiset(r.state.drawn) == multiset(s.available) + multiset(s.drawn)
      && |r.state.drawn| == |s.drawn| + 1
      && r.state.drawn[..|s.drawn|] == s.drawn
  {
    var r := DrawName(s, i);
    assert r.state.drawn == s.drawn + [s.available[i]];
    assert multiset(r.state.drawn) == multiset(s.drawn) + multiset{s.available[i]};
  }

  lemma DrawKeepsInv(s: State, i: nat)
    requires Inv(s)
    requires |s.roster| >= 2 ==> i < |DrawSource(s)|
    ensures Inv(DrawName(s, i).state)
  {
    var r := DrawName(s, i);
    if |s.roster| >= 2 {
      UniqueIsDistinct(s.roster);
      var src := DrawSource(s);
      var name := src[i];
      RemoveAtMembers(src, i);
      assert forall x :: x in r.state.available <==> x in src && x != name;
    }
  }

  lemma DrawKeepsDisjoint(s: State, i: nat)
    requires Inv(s) && Disjoint(s)
    requires |s.roster| >= 2 ==> i < |DrawSource(s)|
    ensures Disjoint(DrawName(s, i).state)
  {
    var r := DrawName(s, i);
    if |s.roster| >= 2 {
      UniqueIsDistinct(s.roster);
      var src := DrawSource(s);
      RemoveAtMembers(src, i);
    }
  }

  // ---------------------------------------------------------------------------
  // eliminarAmigo, confirmarEliminacion

  datatype RemoveOutcome = AlreadyDrawn | Removed(name: string) | NothingAt
  datatype RemoveResult = RemoveResult(state: State, outcome: RemoveOutcome)

  /** The guard of lines 469-476, then the three splices of lines 522-538.
      An index past the end reads `undefined`, which passes the guard and
      matches nothing, so the arrays stay as they are. */
  function Withdraw(s: State, index: nat): (r: RemoveResult)
    ensures index < |s.roster| && s.roster[index] in s.drawn ==> r == RemoveResult(s, AlreadyDrawn)
    ensures index >= |s.roster| ==> r == RemoveResult(s, NothingAt)
    ensures index < |s.roster| && s.roster[index] !in s.drawn ==>
      && r.outcome == Removed(s.roster[index])
      && r.state.roster == RemoveAt(s.roster, index)
      && r.state.drawn == s.drawn
      && r.state.available == RemoveFirst(s.available, s.roster[index])
  {
    if index < |s.roster| && s.roster[index] in s.drawn then RemoveResult(s, AlreadyDrawn)
    else if index >= |s.roster| then RemoveResult(s, NothingAt)
    else
      var name := s.roster[index];
      RemoveResult(
        State(RemoveAt(s.roster, index), RemoveFirst(s.drawn, name), RemoveFirst(s.available, name)),
        Removed(name))
  }

  /** Removal as a whole: a refused request changes nothing; otherwise the
      resync of line 542 follows the splices. From a state keeping the
      invariant with nobody both drawn and available, the removal puts a
      drawn name back into the pool exactly when the splices empty the pool
      while participants remain and somebody is drawn. */
  function RemoveName(s: State, index: nat): (r: RemoveResult)
    ensures r.outcome == Withdraw(s, index).outcome
    ensures r.outcome == AlreadyDrawn ==> r.state == s
    ensures r.outcome != AlreadyDrawn ==> r.state == Resync(Withdraw(s, index).state)
    ensures Inv(s) && Disjoint(s) && r.outcome != AlreadyDrawn ==>
      (Disjoint(r.state) <==>
        !(|Withdraw(s, index).state.available| == 0 && |Withdraw(s, index).state.roster| > 0 && s.drawn != []))
  {
    var w := Withdraw(s, index);
    if w.outcome == AlreadyDrawn then w
    else
      RemoveDisjointness(s, index);
      RemoveResult(Resync(w.state), w.outcome)
  }

  lemma RemoveDisjointness(s: State, index: nat)
    ensures var w := Withdraw(s, index);
      Inv(s) && Disjoint(s) && w.outcome != AlreadyDrawn ==>
        (Disjoint(Resync(w.state)) <==> !(|w.state.available| == 0 && |w.state.roster| > 0 && s.drawn != []))
  {
    if Inv(s) && Disjoint(s) {
      WithdrawKeepsInv(s, index);
      WithdrawKeepsDisjoint(s, index);
      ResyncDisjointness(Withdraw(s, index).state);
    }
  }

  /** On a state keeping the invariant, a removal takes exactly one participant
      out of the roster and out of the pool, never touches the drawn list, and
      a drawn participant can never be removed. */
  lemma RemoveEffect(s: State, index: nat)
    requires Inv(s) && index < |s.roster|
    ensures var r := Withdraw(s, index);
      && (s.roster[index] in s.drawn <==> r.outcome == AlreadyDrawn)
      && r.state.drawn == s.drawn
      && |r.state.roster| == |s.roster| - (if r.outcome == AlreadyDrawn then 0 else 1)
      && (r.outcome != AlreadyDrawn ==>
            forall x :: x in r.state.roster <==> x in s.roster && x != s.roster[index])
      && (r.outcome != AlreadyDrawn ==>
            forall x :: x in r.state.available <==> x in s.available && x != s.roster[index])
  {
    var r := Withdraw(s, index);
    if r.outcome != AlreadyDrawn {
      var name := s.roster[index];
      UniqueIsDistinct(s.roster);
      RemoveAtMembers(s.roster, index);
      if name in s.available {
        RemoveAtMembers(s.available, IndexOf(s.available, name));
      }
    }
  }

  lemma WithdrawKeepsInv(s: State, index: nat)
    requires Inv(s)
    ensures Inv(Withdraw(s, index).state)
  {
    var r := Withdraw(s, index);
    if r.outcome.Removed? {
      RemoveEffect(s, index);
      RemoveAtKeepsUnique(s.roster, index);
      var name := s.roster[index];
      if name in s.available {
        RemoveAtMembers(s.available, IndexOf(s.available, name));
      }
    }
  }

  lemma WithdrawKeepsDisjoint(s: State, index: nat)
    requires Inv(s) && Disjoint(s)
    ensures Disjoint(Withdraw(s, index).state)
  {
    var r := Withdraw(s, index);
    if r.outcome.Removed? {
      var name := s.roster[index];
      if name in s.available {
        RemoveAtSubset(s.available, IndexOf(s.available, name));
      }
    }
  }

  // ---------------------------------------------------------------------------
  // reiniciarJuego

  /** Lines 367-372, then the resync of line 381, which has nothing to copy. */
  function Reset(s: State): (r: State)
    ensures r.roster == [] && r.drawn == [] && r.available == []
  {
    Resync(Initial)
  }

  /** Restarting twice is restarting once, from whatever state. */
  lemma ResetIdempotent(s: State)
    ensures Reset(Reset(s)) == Reset(s)
    ensures Inv(Reset(s)) && Disjoint(Reset(s))
  {
  }

  // ---------------------------------------------------------------------------
  // The widget as a state machine

  datatype Op =
    | Add(raw: string)   // agregarAmigo
    | Draw(index: nat)   // sortearAmigo, with the random index
    | Remove(index: nat) // eliminarAmigo followed by confirmarEliminacion
    | Restart            // reiniciarJuego
    | Refresh            // a standalone verificarEstadoJuego (line 265)

  /** One operation; `None` when a draw is given an index that `Math.random`
      cannot produce. Drawing and the standalone resync never change the roster. */
  function Step(s: State, op: Op): (r: Option<State>)
    ensures r.None? <==> op.Draw? && |s.roster| >= 2 && op.index >= |DrawSource(s)|
    ensures r.Some? && (op.Draw? || op.Refresh?) ==> r.value.roster == s.roster
    ensures r.Some? && op.Restart? ==> r.value == Initial
  {
    match op
    case Add(raw) => Some(AddName(s, raw).state)
    case Draw(i) => if |s.roster| >= 2 && i >= |DrawSource(s)| then None else Some(DrawName(s, i).state)
    case Remove(k) => Some(RemoveName(s, k).state)
    case Restart => Some(Reset(s))
    case Refresh => Some(Resync(s))
  }

  /** A sequence of operations, stopping at the first impossible draw index. */
  function Run(s: State, ops: seq<Op>): Option<State>
    decreases |ops|
  {
    if ops == [] then Some(s)
    else
      match Step(s, ops[0])
      case None => None
      case Some(t) => Run(t, ops[1..])
  }

  lemma StepKeepsInv(s: State, op: Op)
    requires Inv(s) && Step(s, op).Some?
    ensures Inv(Step(s, op).value)
  {
    match op
    case Add(raw) => AdmitKeepsInv(s, raw);
    case Draw(i) => DrawKeepsInv(s, i);
    case Remove(k) =>
      WithdrawKeepsInv(s, k);
      ResyncKeepsInv(Withdraw(s, k).state);
    case Restart =>
    case Refresh => ResyncKeepsInv(s);
  }

  /** Every state reachable from a state keeping the invariant keeps it, and
      so every state the widget can reach from its initial state does. */
  lemma {:induction false} RunKeepsInv(s: State, ops: seq<Op>)
    requires Inv(s) && Run(s, ops).Some?
    ensures Inv(Run(s, ops).value)
    decreases |ops|
  {
    if ops != [] {
      StepKeepsInv(s, ops[0]);
      RunKeepsInv(Step(s, ops[0]).value, ops[1..]);
    }
  }
}
