// The transaction builder: If, Then, Else and Commit, and what whole runs of
// calls on it accept and submit.
module TxnBuilder {
  import opened Common
  import opened Messages
  import opened Ops
  import opened Requests

  datatype Call = If(cs: seq<Option<Compare>>) | Then(ops: seq<Op>) | Else(ops: seq<Op>) | Commit

  /** The fields of a txn, and the operations its Commits have handed to the KV. */
  datatype State = State(
    cif: bool, cthen: bool, celse: bool, isWrite: bool,
    cmps: seq<Option<Compare>>, sus: seq<Op>, fas: seq<Op>, submitted: seq<Op>)

  const START := State(false, false, false, false, [], [], [], [])

  function Step(s: State, c: Call): Result<State, Panic> {
    match c
    case If(cs) =>
      if s.cif || s.cthen || s.celse then Err(BuilderOrder)
      else Ok(s.(cif := true, cmps := s.cmps + cs))
    case Then(ops) =>
      if s.cthen || s.celse then Err(BuilderOrder)
      else Ok(s.(cthen := true, isWrite := s.isWrite || SomeWrite(ops), sus := s.sus + ops))
    case Else(ops) =>
      if s.celse then Err(BuilderOrder)
      else Ok(s.(celse := true, isWrite := s.isWrite || SomeWrite(ops), fas := s.fas + ops))
    case Commit =>
      // kv.Do makes the request first, and panics on what a transaction cannot hold.
      var thenOps :- ToRequestOps(s.sus);
      var elseOps :- ToRequestOps(s.fas);
      Ok(s.(submitted := s.submitted + [OpTxn(s.cmps, s.sus, s.fas)]))
  }

  /** A run of calls; the first panic ends it. */
  function Run(s: State, calls: seq<Call>): Result<State, Panic>
    decreases calls
  {
    if calls == [] then Ok(s)
    else
      var s' :- Step(s, calls[0]);
      Run(s', calls[1..])
  }

  // ---------- the builder itself ----------

  /** A method answers Some(panic) where the source panics; the deferred unlock
      leaves the builder as it was. submitted is what the KV has been asked. */
  class Builder {
    var cif: bool
    var cthen: bool
    var celse: bool
    var isWrite: bool
    var cmps: seq<Option<Compare>>
    var sus: seq<Op>
    var fas: seq<Op>
    var submitted: seq<Op>

    ghost function View(): State
      reads this
    {
      State(cif, cthen, celse, isWrite, cmps, sus, fas, submitted)
    }

    constructor ()
      ensures View() == START
    {
      cif, cthen, celse, isWrite := false, false, false, false;
      cmps, sus, fas, submitted := [], [], [], [];
    }

    method If(cs: seq<Option<Compare>>) returns (panic: Option<Panic>)
      modifies this
      ensures match Step(old(View()), Call.If(cs))
              case Ok(s) => panic == None && View() == s
              case Err(e) => panic == Some(e) && View() == old(View())
    {
      if cif || cthen || celse {
        return Some(BuilderOrder);
      }
      cif := true;
      cmps := cmps + cs;
      return None;
    }

    method Then(ops: seq<Op>) returns (panic: Option<Panic>)
      modifies this
      ensures match Step(old(View()), Call.Then(ops))
              case Ok(s) => panic == None && View() == s
              case Err(e) => panic == Some(e) && View() == old(View())
    {
      if cthen || celse {
        return Some(BuilderOrder);
      }
      cthen := true;
      for i := 0 to |ops|
        invariant isWrite == (old(isWrite) || SomeWrite(ops[..i])) && sus == old(sus) + ops[..i]
        invariant View() == old(View()).(cthen := true, isWrite := isWrite, sus := sus)
      {
        var w := IsWriteLoop(ops[i]);
        OneMore(ops, i);
        isWrite := isWrite || w;
        sus := sus + [ops[i]];
      }
      assert ops[..|ops|] == ops;
      return None;
    }

    method Else(ops: seq<Op>) returns (panic: Option<Panic>)
      modifies this
      ensures match Step(old(View()), Call.Else(ops))
              case Ok(s) => panic == None && View() == s
              case Err(e) => panic == Some(e) && View() == old(View())
    {
      if celse {
        return Some(BuilderOrder);
      }
      celse := true;
      for i := 0 to |ops|
        invariant isWrite == (old(isWrite) || SomeWrite(ops[..i])) && fas == old(fas) + ops[..i]
        invariant View() == old(View()).(celse := true, isWrite := isWrite, fas := fas)
      {
        var w := IsWriteLoop(ops[i]);
        OneMore(ops, i);
        isWrite := isWrite || w;
        fas := fas + [ops[i]];
      }
      assert ops[..|ops|] == ops;
      return None;
    }

    /** The answer of the KV to the request is given; what it is asked is recorded.
        Making the request may panic. */
    method Commit<R, E>(answer: Result<R, E>) returns (r: Option<Result<R, E>>, panic: Option<Panic>)
      modifies this`submitted
      ensures match Step(old(View()), Call.Commit)
              case Ok(s) => panic == None && r == Some(answer) && View() == s
              case Err(e) => panic == Some(e) && r == None && View() == old(View())
    {
      var thenOps := ToRequestOpsLoop(sus);
      if thenOps.Err? {
        return None, Some(thenOps.error);
      }
      var elseOps := ToRequestOpsLoop(fas);
      if elseOps.Err? {
        return None, Some(elseOps.error);
      }
      submitted := submitted + [OpTxn(cmps, sus, fas)];
      return Some(answer), None;
    }
  }

  lemma OneMore(ops: seq<Op>, i: nat)
    requires i < |ops|
    ensures ops[..i + 1] == ops[..i] + [ops[i]]
    ensures SomeWrite(ops[..i + 1]) <==> SomeWrite(ops[..i]) || IsWrite(ops[i])
  {
    hide IsWrite;
    SomeWriteAppend(ops[..i], [ops[i]]);
    assert ops[..i + 1] == ops[..i] + [ops[i]];
    assert SomeWrite([ops[i]]) <==> IsWrite([ops[i]][0]);
  }

  // ---------- whole runs ----------

  // What the calls of a run were given, in order.

  function CmpsOf(calls: seq<Call>): seq<Option<Compare>> {
    if calls == [] then [] else (if calls[0].If? then calls[0].cs else []) + CmpsOf(calls[1..])
  }

  function ThenOf(calls: seq<Call>): seq<Op> {
    if calls == [] then [] else (if calls[0].Then? then calls[0].ops else []) + ThenOf(calls[1..])
  }

  function ElseOf(calls: seq<Call>): seq<Op> {
    if calls == [] then [] else (if calls[0].Else? then calls[0].ops else []) + ElseOf(calls[1..])
  }

  function Commits(calls: seq<Call>): nat {
    if calls == [] then 0 else (if calls[0].Commit? then 1 else 0) + Commits(calls[1..])
  }

  lemma {:induction false} SplitCalls(calls: seq<Call>)
    requires calls != []
    ensures CmpsOf(calls) == CmpsOf([calls[0]]) + CmpsOf(calls[1..])
    ensures ThenOf(calls) == ThenOf([calls[0]]) + ThenOf(calls[1..])
    ensures ElseOf(calls) == ElseOf([calls[0]]) + ElseOf(calls[1..])
    ensures Commits(calls) == Commits([calls[0]]) + Commits(calls[1..])
  {
    assert [calls[0]][1..] == [];
  }

  datatype Kind = KIf | KThen | KElse

  /** The calls of a run that are not Commits. */
  function Kinds(calls: seq<Call>): seq<Kind> {
    if calls == [] then []
    else
      (match calls[0] { case If(_) => [KIf] case Then(_) => [KThen] case Else(_) => [KElse] case Commit => [] }) + Kinds(calls[1..])
  }

  predicate Subsequence<T(==)>(a: seq<T>, b: seq<T>) {
    a == [] || (b != [] && Subsequence(if a[0] == b[0] then a[1..] else a, b[1..]))
  }

  /** The calls still allowed. */
  function Allowed(s: State): seq<Kind> {
    if s.celse then [] else if s.cthen then [KElse] else if s.cif then [KThen, KElse] else [KIf, KThen, KElse]
  }

  /** Every operation a Commit finds can be put into a transaction. */
  ghost predicate CommitsFit(s: State, calls: seq<Call>) {
    forall i :: 0 <= i < |calls| && calls[i] == Commit ==> AllInTxn(s, calls[..i])
  }

  /** What the builder holds after the calls, and held before them in s. */
  predicate AllInTxn(s: State, calls: seq<Call>) {
    forall op <- s.sus + ThenOf(calls) + (s.fas + ElseOf(calls)) :: InTxn(op)
  }

  lemma CommitPanicsWhen(s: State)
    ensures Step(s, Commit).Ok? <==> AllInTxn(s, [])
    ensures forall table: bytes :: Step(s, Commit).Ok? <==> ToTxnRequest(table, OpTxn(s.cmps, s.sus, s.fas)).Ok?
  {
    TranslatedOps(s.sus);
    TranslatedOps(s.fas);
    assert s.sus + ThenOf([]) + (s.fas + ElseOf([])) == s.sus + s.fas;
  }

  // Shifting the first call into the state.
  lemma FitsNext(s: State, calls: seq<Call>)
    requires calls != [] && Step(s, calls[0]).Ok?
    ensures CommitsFit(s, calls) <==> CommitsFit(Step(s, calls[0]).value, calls[1..])
  {
    var s', rest := Step(s, calls[0]).value, calls[1..];
    forall i | 0 < i < |calls| ensures AllInTxn(s, calls[..i]) <==> AllInTxn(s', rest[..i - 1]) {
      assert calls[..i][1..] == rest[..i - 1] && calls[..i][0] == calls[0];
      HeldNext(s, calls[..i]);
    }
    hide AllInTxn, Step;
    if CommitsFit(s, calls) {
      forall j | 0 <= j < |rest| && rest[j] == Commit ensures AllInTxn(s', rest[..j]) {
        assert calls[j + 1] == Commit;
      }
    }
    if CommitsFit(s', rest) {
      forall i | 0 <= i < |calls| && calls[i] == Commit ensures AllInTxn(s, calls[..i]) {
        if i == 0 {
          CommitPanicsWhen(s);
          assert calls[..0] == [];
        } else {
          assert rest[i - 1] == Commit;
        }
      }
    }
  }

  lemma HeldNext(s: State, calls: seq<Call>)
    requires calls != [] && Step(s, calls[0]).Ok?
    ensures AllInTxn(s, calls) <==> AllInTxn(Step(s, calls[0]).value, calls[1..])
  {
    SplitCalls(calls);
    var s', rest := Step(s, calls[0]).value, calls[1..];
    assert s.sus + ThenOf(calls) == s'.sus + ThenOf(rest) && s.fas + ElseOf(calls) == s'.fas + ElseOf(rest) by {
      StepHolds(s, calls[0]);
      hide Step;
    }
  }

  lemma StepHolds(s: State, c: Call)
    requires Step(s, c).Ok?
    ensures Step(s, c).value.sus == s.sus + ThenOf([c]) && Step(s, c).value.fas == s.fas + ElseOf([c])
  {
    hide SomeWrite, ToRequestOps;
    assert [c][1..] == [];
  }

  lemma {:induction false} AcceptedFrom(s: State, calls: seq<Call>)
    ensures Run(s, calls).Ok? <==> Subsequence(Kinds(calls), Allowed(s)) && CommitsFit(s, calls)
    decreases calls
  {
    if calls != [] {
      var rest := Kinds(calls[1..]);
      if calls[0] == Commit {
        CommitPanicsWhen(s);
        assert [] + rest == rest && calls[..0] == [];
      } else {
        assert Kinds(calls)[1..] == rest;
        Unfold(Kinds(calls), Allowed(s));
      }
      if Step(s, calls[0]).Ok? {
        FitsNext(s, calls);
        AcceptedFrom(Step(s, calls[0]).value, calls[1..]);
        NextAllowed(s, calls[0]);
        hide Step, CommitsFit, AllInTxn;
      } else {
        hide AllInTxn, SomeWrite, ToRequestOps;
      }
    }
  }

  lemma NextAllowed(s: State, c: Call)
    requires Step(s, c).Ok?
    ensures Allowed(Step(s, c).value) == match c {
              case If(_) => [KThen, KElse]
              case Then(_) => [KElse]
              case Else(_) => []
              case Commit => Allowed(s)
            }
  {
    hide SomeWrite, ToRequestOps;
  }

  lemma Unfold(a: seq<Kind>, b: seq<Kind>)
    requires a != [] && |b| <= 3
    ensures b == [KIf, KThen, KElse] ==>
            Subsequence(a, b) == Subsequence(a[1..], if a[0] == KIf then [KThen, KElse] else if a[0] == KThen then [KElse] else [])
    ensures b == [KThen, KElse] ==>
            Subsequence(a, b) == (a[0] != KIf && Subsequence(a[1..], if a[0] == KThen then [KElse] else []))
    ensures b == [KElse] ==> Subsequence(a, b) == (a[0] == KElse && Subsequence(a[1..], []))
  {
    assert [KIf, KThen, KElse][1..] == [KThen, KElse] && [KThen, KElse][1..] == [KElse] && [KElse][1..] == [];
    assert Subsequence(a, [KElse]) == (a[0] == KElse && Subsequence(a[1..], []));
    assert Subsequence(a, [KThen, KElse]) == if a[0] == KThen then Subsequence(a[1..], [KElse]) else Subsequence(a, [KElse]);
  }

  // Main result: the runs that end without panic are exactly those whose If, Then
  // and Else calls are a subsequence of If, Then, Else and whose Commits, which
  // may come anywhere, find only gets, puts and deletes.
  lemma {:induction false} AcceptedRuns(calls: seq<Call>)
    ensures Run(START, calls).Ok? <==>
            && Subsequence(Kinds(calls), [KIf, KThen, KElse])
            && forall i :: 0 <= i < |calls| && calls[i] == Commit ==> forall op <- ThenOf(calls[..i]) + ElseOf(calls[..i]) :: InTxn(op)
  {
    AcceptedFrom(START, calls);
    forall i | 0 <= i < |calls| && calls[i] == Commit
      ensures AllInTxn(START, calls[..i]) <==> forall op <- ThenOf(calls[..i]) + ElseOf(calls[..i]) :: InTxn(op)
    {
      assert [] + ThenOf(calls[..i]) == ThenOf(calls[..i]) && [] + ElseOf(calls[..i]) == ElseOf(calls[..i]);
    }
  }

  // A nested transaction is taken by Then and makes Commit panic.
  lemma NestedTxnPanics()
    ensures Run(START, [Then([OpTxn([], [], [])])]).Ok?
    ensures Run(START, [Then([OpTxn([], [], [])]), Commit]) == Err(UnsupportedTxnOp)
  {
    hide SomeWrite;
    var calls := [Then([OpTxn([], [], [])]), Commit];
    var s := Step(START, calls[0]).value;
    assert [calls[0]][1..] == [] && calls[1..] == [Commit];
    assert s.sus == [OpTxn([], [], [])];
    assert Step(s, Commit) == Err(UnsupportedTxnOp);
  }

  predicate WriteKnown(s: State) { s.isWrite == SomeWrite(s.sus + s.fas) }

  lemma StepAccumulates(s: State, c: Call)
    requires Step(s, c).Ok? && WriteKnown(s)
    ensures var r := Step(s, c).value;
            && r.cmps == s.cmps + CmpsOf([c]) && r.sus == s.sus + ThenOf([c]) && r.fas == s.fas + ElseOf([c])
            && WriteKnown(r)
            && |r.submitted| == |s.submitted| + Commits([c]) && s.submitted <= r.submitted
  {
    hide SomeWrite;
    var r := Step(s, c).value;
    SomeWriteAppend(s.sus, s.fas);
    SomeWriteAppend(r.sus, r.fas);
    assert [c][1..] == [];
    if c.Then? { SomeWriteAppend(s.sus, c.ops); }
    if c.Else? { SomeWriteAppend(s.fas, c.ops); }
  }

  lemma {:induction false} RunAccumulates(s: State, calls: seq<Call>)
    requires Run(s, calls).Ok? && WriteKnown(s)
    ensures var r := Run(s, calls).value;
            && r.cmps == s.cmps + CmpsOf(calls) && r.sus == s.sus + ThenOf(calls) && r.fas == s.fas + ElseOf(calls)
            && WriteKnown(r)
            && |r.submitted| == |s.submitted| + Commits(calls) && s.submitted <= r.submitted
    decreases calls
  {
    if calls != [] {
      SplitCalls(calls);
      hide Step, WriteKnown, CmpsOf, ThenOf, ElseOf, Commits;
      StepAccumulates(s, calls[0]);
      RunAccumulates(Step(s, calls[0]).value, calls[1..]);
    }
  }

  // Main result: in every reachable state the builder holds exactly what it was
  // given, and isWrite says whether some operation writes.
  lemma {:induction false} ReachableStates(calls: seq<Call>)
    requires Run(START, calls).Ok?
    ensures var r := Run(START, calls).value;
            && r.cmps == CmpsOf(calls) && r.sus == ThenOf(calls) && r.fas == ElseOf(calls)
            && (r.isWrite <==> SomeNoGet(LeavesOf(ThenOf(calls) + ElseOf(calls))))
            && |r.submitted| == Commits(calls)
  {
    RunAccumulates(START, calls);
    WritesIffSomeLeafOfDoes(ThenOf(calls) + ElseOf(calls));
  }

  lemma {:induction false} RunAppend(s: State, a: seq<Call>, b: seq<Call>)
    ensures Run(s, a + b) == match Run(s, a) case Ok(s') => Run(s', b) case Err(e) => Err(e)
    decreases a
  {
    hide Step;
    if a == [] {
      assert a + b == b;
    } else {
      assert (a + b)[1..] == a[1..] + b;
      if Step(s, a[0]).Ok? {
        RunAppend(Step(s, a[0]).value, a[1..], b);
      }
    }
  }

  // Main result: each Commit submits the comparisons and operations of the calls
  // before it, no more and no less; a repeated Commit submits them again.
  lemma {:induction false} CommitSubmitsWhatWasBuilt(before: seq<Call>, after: seq<Call>)
    requires Run(START, before + [Commit] + after).Ok?
    ensures Commits(before) < |Run(START, before + [Commit] + after).value.submitted|
    ensures Run(START, before + [Commit] + after).value.submitted[Commits(before)]
            == OpTxn(CmpsOf(before), ThenOf(before), ElseOf(before))
  {
    RunAppend(START, before + [Commit], after);
    RunAppend(START, before, [Commit]);
    RunAccumulates(START, before);
    var s := Run(START, before).value;
    var s' := Step(s, Commit).value;
    assert Run(s, [Commit]) == Ok(s') by {
      assert Run(s', []) == Ok(s');
    }
    RunAccumulates(s', after);
  }
}
