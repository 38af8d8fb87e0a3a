// Operations and their options: which keys an operation selects, and whether it
// writes.
module Ops {
  import opened Common
  import opened Messages
  import opened KeyRange

  datatype OpType = Unset | Get | Iterate | PutOp | Delete | TxnOp

  datatype Op = Op(
    t: OpType, key: Option<bytes>, end: Option<bytes>,
    limit: i64, serializable: bool, keysOnly: bool, countOnly: bool,
    minModRev: i64, maxModRev: i64, minCreateRev: i64, maxCreateRev: i64, rev: i64,
    prevKV: bool, val: Option<bytes>, count: bool,
    cmps: seq<Option<Compare>>, thenOps: seq<Op>, elseOps: seq<Op>,
    isOptsWithFromKey: bool, isOptsWithPrefix: bool)

  /** Op{} */
  const OP := Op(Unset, None, None, 0, false, false, false, 0, 0, 0, 0, 0, false, None, false, [], [], [], false, false)

  function OpTxn(cmps: seq<Option<Compare>>, thenOps: seq<Op>, elseOps: seq<Op>): Op {
    OP.(t := TxnOp, cmps := cmps, thenOps := thenOps, elseOps := elseOps)
  }

  // ---------- options ----------

  datatype OpOption =
    | WithLimit(n: i64)
    | WithRev(n: i64)
    | WithPrefix
    | WithRange(endKey: bytes)
    | WithFromKey
    | WithSerializable
    | WithKeysOnly
    | WithCountOnly
    | WithPrevKV
    | WithCount

  function Apply(opt: OpOption, op: Op): Op {
    match opt
    case WithLimit(n) => op.(limit := n)
    case WithRev(n) => op.(rev := n)
    case WithPrefix =>
      if OrElse(op.key, []) == [] then op.(isOptsWithPrefix := true, key := Some([0]), end := Some([0]))
      else op.(isOptsWithPrefix := true, end := Some(PrefixEnd(op.key.value)))
    case WithRange(e) => op.(end := Some(e))
    case WithFromKey =>
      op.(key := if OrElse(op.key, []) == [] then Some([0]) else op.key, end := Some([0]), isOptsWithFromKey := true)
    case WithSerializable => op.(serializable := true)
    case WithKeysOnly => op.(keysOnly := true)
    case WithCountOnly => op.(countOnly := true)
    case WithPrevKV => op.(prevKV := true)
    case WithCount => op.(count := true)
  }

  function ApplyOpts(op: Op, opts: seq<OpOption>): Op
    decreases opts
  {
    if opts == [] then op else ApplyOpts(Apply(opts[0], op), opts[1..])
  }

  /** applyOpts: every option changes the Op in place, in the order given. */
  method ApplyOptsLoop(op: Op, opts: seq<OpOption>) returns (r: Op)
    ensures r == ApplyOpts(op, opts)
  {
    r := op;
    var i := 0;
    while i < |opts|
      invariant 0 <= i <= |opts| && ApplyOpts(r, opts[i..]) == ApplyOpts(op, opts)
    {
      assert opts[i..][1..] == opts[i + 1..];
      r := Apply(opts[i], r);
      i := i + 1;
    }
  }

  lemma {:induction false} ApplyOptsAppend(op: Op, a: seq<OpOption>, b: seq<OpOption>)
    ensures ApplyOpts(op, a + b) == ApplyOpts(ApplyOpts(op, a), b)
    decreases a
  {
    if a == [] {
      assert a + b == b;
    } else {
      assert (a + b)[1..] == a[1..] + b;
      ApplyOptsAppend(Apply(a[0], op), a[1..], b);
    }
  }

  datatype Panic = PrefixAndFromKey | UnexpectedOption | UnsupportedTxnOp | NilBody | BuilderOrder

  /** OpGet, with its panics as errors. */
  function OpGet(key: bytes, opts: seq<OpOption>): Result<Op, Panic> {
    if ApplyOpts(OP.(key := Some([])), opts).isOptsWithPrefix && ApplyOpts(OP.(key := Some([])), opts).isOptsWithFromKey
    then Err(PrefixAndFromKey)
    else
      var op := ApplyOpts(OP.(t := Get, key := Some(key)), opts);
      if op.count || op.prevKV then Err(UnexpectedOption) else Ok(op)
  }

  lemma OneOption(op: Op, opt: OpOption)
    requires op.key.Some?
    ensures var r := Apply(opt, op);
            && r.key == Some(if op.key.value == [] && (opt == WithPrefix || opt == WithFromKey) then [0] else op.key.value)
            && r.end == match opt {
                 case WithPrefix => Some(if op.key.value == [] then [0] else PrefixEnd(op.key.value))
                 case WithFromKey => Some([0])
                 case WithRange(e) => Some(e)
                 case _ => op.end
               }
  {
    hide PrefixEnd;
    match opt {
      case WithPrefix =>
      case WithFromKey =>
      case WithRange(_) =>
      case _ =>
    }
  }

  /** The argument of the last WithLimit, if there is one. */
  function LastLimit(opts: seq<OpOption>, was: i64): i64 {
    if opts == [] then was
    else
      var last := opts[|opts| - 1];
      if last.WithLimit? then last.n else LastLimit(opts[..|opts| - 1], was)
  }

  /** The argument of the last WithRev, if there is one. */
  function LastRev(opts: seq<OpOption>, was: i64): i64 {
    if opts == [] then was
    else
      var last := opts[|opts| - 1];
      if last.WithRev? then last.n else LastRev(opts[..|opts| - 1], was)
  }

  /** The fields no option is for. */
  predicate OthersKept(op: Op, r: Op) {
    && r.t == op.t && r.val == op.val && (r.cmps, r.thenOps, r.elseOps) == (op.cmps, op.thenOps, op.elseOps)
    && RevisionsKept(op, r)
  }

  predicate RevisionsKept(op: Op, r: Op) {
    && r.minModRev == op.minModRev && r.maxModRev == op.maxModRev && r.minCreateRev == op.minCreateRev && r.maxCreateRev == op.maxCreateRev
  }

  ghost predicate FlagsOf(op: Op, opts: seq<OpOption>, r: Op) {
    && r.keysOnly == (op.keysOnly || WithKeysOnly in opts)
    && r.countOnly == (op.countOnly || WithCountOnly in opts)
    && r.serializable == (op.serializable || WithSerializable in opts)
    && r.prevKV == (op.prevKV || WithPrevKV in opts)
    && r.count == (op.count || WithCount in opts)
    && r.isOptsWithPrefix == (op.isOptsWithPrefix || WithPrefix in opts)
    && r.isOptsWithFromKey == (op.isOptsWithFromKey || WithFromKey in opts)
  }

  ghost predicate ValuesOf(op: Op, opts: seq<OpOption>, r: Op) {
    && r.limit == LastLimit(opts, op.limit)
    && r.rev == LastRev(opts, op.rev)
    && (r.end.Some? <==> op.end.Some? || exists i :: 0 <= i < |opts| && SetsRange(opts[i]))
  }

  // Main result: every option sets its own field and no other, whatever comes
  // before and after it: a flag is on exactly when its option is given (or it was on),
  // and the last limit and revision stand.
  lemma {:induction false} OptionsSet(op: Op, opts: seq<OpOption>)
    ensures var r := ApplyOpts(op, opts); FlagsOf(op, opts, r) && ValuesOf(op, opts, r) && OthersKept(op, r)
    decreases |opts|
  {
    hide FlagsOf, ValuesOf, OthersKept, Apply;
    if opts == [] {
      NoOption(op);
    } else {
      var front, last := opts[..|opts| - 1], opts[|opts| - 1];
      assert opts == front + [last];
      ApplyOptsAppend(op, front, [last]);
      LastApplied(ApplyOpts(op, front), last);
      OptionsSet(op, front);
      var r := ApplyOpts(op, front);
      FlagsNext(op, front, r, last);
      ValuesNext(op, front, r, last);
      OthersNext(op, r, last);
    }
  }

  lemma NoOption(op: Op)
    ensures FlagsOf(op, [], op) && ValuesOf(op, [], op) && OthersKept(op, op)
  {
  }

  lemma {:induction false} LastApplied(op: Op, last: OpOption)
    ensures ApplyOpts(op, [last]) == Apply(last, op)
  {
    assert [last][1..] == [];
  }

  // What one option does to the fields of each kind.

  lemma FlagsSet(op: Op, opt: OpOption)
    ensures var r := Apply(opt, op);
            && r.keysOnly == (op.keysOnly || opt == WithKeysOnly)
            && r.countOnly == (op.countOnly || opt == WithCountOnly)
            && r.serializable == (op.serializable || opt == WithSerializable)
            && r.prevKV == (op.prevKV || opt == WithPrevKV)
            && r.count == (op.count || opt == WithCount)
  {
    hide PrefixEnd;
    match opt {
      case WithLimit(_) =>
      case WithRev(_) =>
      case WithPrefix =>
      case WithRange(_) =>
      case WithFromKey =>
      case WithSerializable =>
      case WithKeysOnly =>
      case WithCountOnly =>
      case WithPrevKV =>
      case WithCount =>
    }
  }

  lemma RangeFlagsSet(op: Op, opt: OpOption)
    ensures var r := Apply(opt, op);
            && r.isOptsWithPrefix == (op.isOptsWithPrefix || opt == WithPrefix)
            && r.isOptsWithFromKey == (op.isOptsWithFromKey || opt == WithFromKey)
  {
    hide PrefixEnd;
    match opt {
      case WithPrefix =>
      case WithFromKey =>
      case _ =>
    }
  }

  lemma ValuesSet(op: Op, opt: OpOption)
    ensures var r := Apply(opt, op);
            && r.limit == (if opt.WithLimit? then opt.n else op.limit)
            && r.rev == (if opt.WithRev? then opt.n else op.rev)
            && (r.end.Some? <==> op.end.Some? || SetsRange(opt))
  {
    hide PrefixEnd;
    match opt {
      case WithLimit(_) =>
      case WithRev(_) =>
      case WithPrefix =>
      case WithRange(_) =>
      case WithFromKey =>
      case WithSerializable =>
      case WithKeysOnly =>
      case WithCountOnly =>
      case WithPrevKV =>
      case WithCount =>
    }
  }

  lemma FlagsNext(op: Op, opts: seq<OpOption>, r: Op, last: OpOption)
    requires FlagsOf(op, opts, r)
    ensures FlagsOf(op, opts + [last], Apply(last, r))
  {
    hide Apply;
    FlagsSet(r, last);
    RangeFlagsSet(r, last);
    assert forall o: OpOption :: o in opts + [last] <==> o in opts || o == last;
  }

  lemma ValuesNext(op: Op, opts: seq<OpOption>, r: Op, last: OpOption)
    requires ValuesOf(op, opts, r)
    ensures ValuesOf(op, opts + [last], Apply(last, r))
  {
    hide Apply, SetsRange;
    ValuesSet(r, last);
    var all := opts + [last];
    assert all[..|all| - 1] == opts && all[|opts|] == last;
    assert forall i :: 0 <= i < |opts| ==> all[i] == opts[i];
    if SetsRange(last) {
      assert SetsRange(all[|opts|]);
    } else if i :| 0 <= i < |opts| && SetsRange(opts[i]) {
      assert SetsRange(all[i]);
    }
  }

  lemma RevisionsSet(op: Op, opt: OpOption)
    ensures RevisionsKept(op, Apply(opt, op))
  {
    hide PrefixEnd;
    match opt {
      case WithPrefix =>
      case WithFromKey =>
      case _ =>
    }
  }

  lemma OthersSet(op: Op, opt: OpOption)
    ensures OthersKept(op, Apply(opt, op))
  {
    RevisionsSet(op, opt);
    hide PrefixEnd, RevisionsKept;
    match opt {
      case WithLimit(_) =>
      case WithRev(_) =>
      case WithPrefix =>
      case WithRange(_) =>
      case WithFromKey =>
      case WithSerializable =>
      case WithKeysOnly =>
      case WithCountOnly =>
      case WithPrevKV =>
      case WithCount =>
    }
  }

  lemma OthersNext(op: Op, r: Op, last: OpOption)
    requires OthersKept(op, r)
    ensures OthersKept(op, Apply(last, r))
  {
    hide Apply;
    OthersSet(r, last);
    hide RevisionsKept;
    RevisionsNext(op, r, last);
  }

  lemma RevisionsNext(op: Op, r: Op, last: OpOption)
    requires RevisionsKept(op, r)
    ensures RevisionsKept(op, Apply(last, r))
  {
    hide Apply;
    RevisionsSet(r, last);
  }

  /** OpIterate, with its panics as errors. */
  function OpIterate(key: bytes, opts: seq<OpOption>): Result<Op, Panic> {
    if ApplyOpts(OP.(key := Some([])), opts).isOptsWithPrefix && ApplyOpts(OP.(key := Some([])), opts).isOptsWithFromKey
    then Err(PrefixAndFromKey)
    else
      var op := ApplyOpts(OP.(t := Iterate, key := Some(key)), opts);
      if op.count || op.prevKV then Err(UnexpectedOption) else Ok(op)
  }

  /** OpDelete, with its panics as errors. */
  function OpDelete(key: bytes, opts: seq<OpOption>): Result<Op, Panic> {
    if ApplyOpts(OP.(key := Some([])), opts).isOptsWithPrefix && ApplyOpts(OP.(key := Some([])), opts).isOptsWithFromKey
    then Err(PrefixAndFromKey)
    else
      var op := ApplyOpts(OP.(t := Delete, key := Some(key)), opts);
      if op.limit != 0 || op.rev != 0 || op.serializable || op.countOnly || op.minModRev != 0 || op.maxModRev != 0
         || op.minCreateRev != 0 || op.maxCreateRev != 0
      then Err(UnexpectedOption)
      else Ok(op)
  }

  /** OpPut, with its panics as errors. */
  function OpPut(key: bytes, val: bytes, opts: seq<OpOption>): Result<Op, Panic> {
    var op := ApplyOpts(OP.(t := PutOp, key := Some(key), val := Some(val)), opts);
    if op.end.Some? || op.limit != 0 || op.rev != 0 || op.serializable || op.countOnly || op.minModRev != 0 || op.maxModRev != 0
       || op.minCreateRev != 0 || op.maxCreateRev != 0
    then Err(UnexpectedOption)
    else Ok(op)
  }

  // Main result: the option lists each constructor accepts. A limit or revision
  // that a later one resets to 0 is no reason to panic; WithKeysOnly never is.

  lemma GetAcceptsWhen(key: bytes, opts: seq<OpOption>)
    ensures OpGet(key, opts).Ok? <==>
            !(WithPrefix in opts && WithFromKey in opts) && WithCount !in opts && WithPrevKV !in opts
  {
    OptionsSet(OP.(key := Some([])), opts);
    OptionsSet(OP.(t := Get, key := Some(key)), opts);
    hide ApplyOpts;
  }

  lemma IterateAcceptsWhen(key: bytes, opts: seq<OpOption>)
    ensures OpIterate(key, opts).Ok? <==>
            !(WithPrefix in opts && WithFromKey in opts) && WithCount !in opts && WithPrevKV !in opts
    ensures OpIterate(key, opts).Ok? ==> OpGet(key, opts).Ok? && OpIterate(key, opts).value.t == Iterate
  {
    OptionsSet(OP.(key := Some([])), opts);
    OptionsSet(OP.(t := Iterate, key := Some(key)), opts);
    OptionsSet(OP.(t := Get, key := Some(key)), opts);
    hide ApplyOpts;
  }

  lemma {:induction false} DeleteAcceptsWhen(key: bytes, opts: seq<OpOption>)
    ensures OpDelete(key, opts).Ok? <==>
            && !(WithPrefix in opts && WithFromKey in opts) && WithSerializable !in opts && WithCountOnly !in opts
            && LastLimit(opts, 0) == 0 && LastRev(opts, 0) == 0
    ensures OpDelete(key, opts).Ok? ==>
              var op := OpDelete(key, opts).value;
              op.t == Delete && op.prevKV == (WithPrevKV in opts) && op.count == (WithCount in opts)
  {
    OptionsSet(OP.(key := Some([])), opts);
    OptionsSet(OP.(t := Delete, key := Some(key)), opts);
    hide ApplyOpts;
  }

  lemma {:induction false} PutAcceptsWhen(key: bytes, val: bytes, opts: seq<OpOption>)
    ensures OpPut(key, val, opts).Ok? <==>
            && (forall i :: 0 <= i < |opts| ==> !SetsRange(opts[i])) && WithSerializable !in opts && WithCountOnly !in opts
            && LastLimit(opts, 0) == 0 && LastRev(opts, 0) == 0
    ensures OpPut(key, val, opts).Ok? ==>
              var op := OpPut(key, val, opts).value;
              op.t == PutOp && op.key == Some(key) && op.val == Some(val) && op.prevKV == (WithPrevKV in opts)
  {
    OptionsSet(OP.(t := PutOp, key := Some(key), val := Some(val)), opts);
    hide ApplyOpts;
    if forall i :: 0 <= i < |opts| ==> !SetsRange(opts[i]) {
      RangeIsKept(OP.(t := PutOp, key := Some(key), val := Some(val)), opts);
    }
  }

  // ---------- the keys an operation selects ----------

  predicate Selects(op: Op, k: bytes) { InRange(OrElse(op.key, []), op.end, k) }

  predicate SetsRange(opt: OpOption) { opt.WithPrefix? || opt.WithFromKey? || opt.WithRange? }

  /** Whether some option has already turned an empty key into "\0". */
  predicate Raised(key: bytes, opts: seq<OpOption>) { key == [] && (WithPrefix in opts || WithFromKey in opts) }

  lemma {:induction false} KeyAfter(op: Op, opts: seq<OpOption>)
    requires op.key.Some?
    ensures ApplyOpts(op, opts).key == Some(if Raised(op.key.value, opts) then [0] else op.key.value)
    decreases opts
  {
    hide Apply;
    if opts != [] {
      assert forall o: OpOption :: o in opts <==> o == opts[0] || o in opts[1..];
      OneOption(op, opts[0]);
      KeyAfter(Apply(opts[0], op), opts[1..]);
    }
  }

  lemma {:induction false} RangeIsKept(op: Op, opts: seq<OpOption>)
    requires op.key.Some? && forall o <- opts :: !SetsRange(o)
    ensures ApplyOpts(op, opts).key == op.key && ApplyOpts(op, opts).end == op.end
    decreases opts
  {
    hide Apply;
    if opts != [] {
      assert !SetsRange(opts[0]);
      OneOption(op, opts[0]);
      RangeIsKept(Apply(opts[0], op), opts[1..]);
    }
  }

  // One option that sets a range, applied to a key that may have been raised.
  lemma {:induction false} RangeOptionSelects(op: Op, opt: OpOption, k: bytes)
    requires op.key.Some? && SetsRange(opt)
    ensures var key := op.key.value;
            Selects(Apply(opt, op), k) <==>
            if opt.WithPrefix? then (if key == [] then k != [] else key <= k)
            else if opt.WithFromKey? then (if key == [] then k != [] else !Below(k, key))
            else InRange(key, Some(opt.endKey), k)
  {
    hide PrefixEnd, Below, Apply;
    OneOption(op, opt);
    EmptyPrefix(k);
    if op.key.value != [] {
      PrefixSelection(op.key.value, k);
    }
  }

  lemma {:induction false} FromLowestKey(k: bytes)
    ensures !Below(k, [0]) <==> k != []
  {
    EmptyPrefix(k);
  }

  // Main result: the last option that sets a range decides what is selected.
  lemma {:induction false} LastRangeOptionDecides(op: Op, before: seq<OpOption>, last: OpOption, after: seq<OpOption>, k: bytes)
    requires op.key.Some? && SetsRange(last) && forall o <- after :: !SetsRange(o)
    ensures var key := op.key.value;
            Selects(ApplyOpts(op, before + [last] + after), k) <==>
            if last.WithPrefix? then (if Raised(key, before) then [0] <= k else if key == [] then k != [] else key <= k)
            else if last.WithFromKey? then (if key == [] then k != [] else !Below(k, key))
            else InRange(if Raised(key, before) then [0] else key, Some(last.endKey), k)
  {
    hide Below, Apply, InRange;
    var op1 := ApplyOpts(op, before);
    var op2 := Apply(last, op1);
    ApplyOptsAppend(op, before + [last], after);
    ApplyOptsAppend(op, before, [last]);
    assert ApplyOpts(op1, [last]) == op2;
    KeyAfter(op, before);
    OneOption(op1, last);
    RangeIsKept(op2, after);
    RangeOptionSelects(op1, last, k);
    FromLowestKey(k);
  }

  /** What WithPrefix is for: the keys that start with key; for the empty key, all non-empty keys. */
  predicate HasPrefix(key: bytes, k: bytes) { if key == [] then k != [] else key <= k }

  ghost predicate SelectsPrefix(op: Op, key: bytes) { forall k: bytes :: Selects(op, k) <==> HasPrefix(key, k) }

  // An operation with a prefix selects exactly the keys it should, unless the key
  // is empty and was raised before: a repeated WithPrefix on the empty key
  // selects only the keys that start with 0.
  lemma {:induction false} PrefixIsExactWhen(key: bytes, op: Op, before: seq<OpOption>, after: seq<OpOption>)
    requires op.key == Some(key) && forall o <- after :: !SetsRange(o)
    ensures SelectsPrefix(ApplyOpts(op, before + [WithPrefix] + after), key) <==> !Raised(key, before)
  {
    hide ApplyOpts, Selects;
    var r := ApplyOpts(op, before + [WithPrefix] + after);
    if Raised(key, before) {
      var k: bytes := [1];
      assert HasPrefix(key, k);
      assert [0][0] != k[0] && !([0] <= k);
      LastRangeOptionDecides(op, before, WithPrefix, after, k);
      assert !Selects(r, k);
    } else {
      forall k: bytes ensures Selects(r, k) <==> HasPrefix(key, k) {
        LastRangeOptionDecides(op, before, WithPrefix, after, k);
      }
    }
  }

  // OpGet with WithPrefix twice on the empty key misses the key "\1".
  lemma PrefixTwiceMisses()
    ensures OpGet([], [WithPrefix, WithPrefix]).Ok?
    ensures HasPrefix([], [1]) && !Selects(OpGet([], [WithPrefix, WithPrefix]).value, [1])
  {
    GetAcceptsWhen([], [WithPrefix, WithPrefix]);
    var opts: seq<OpOption> := [WithPrefix] + [WithPrefix] + [];
    assert [WithPrefix, WithPrefix] == opts;
    LastRangeOptionDecides(OP.(t := Get, key := Some([])), [WithPrefix], WithPrefix, [], [1]);
    var zero: bytes, one: bytes := [0], [1];
    assert zero[0] != one[0] && !(zero <= one);
  }

  /** Cmp.WithPrefix: here an empty key stays empty. */
  function CmpWithPrefix(c: Compare): Compare { c.(rangeEnd := Some(PrefixEnd(OrElse(c.key, [])))) }

  lemma ComparedKeysHavePrefix(c: Compare, k: bytes)
    ensures InRange(OrElse(c.key, []), CmpWithPrefix(c).rangeEnd, k) <==> OrElse(c.key, []) <= k
  {
    hide Below, PrefixEnd;
    EmptyPrefix(k);
    if OrElse(c.key, []) != [] {
      PrefixSelection(c.key.value, k);
    }
  }

  // ---------- writes ----------

  /** isWrite: a transaction by its operations, anything else unless it is a Get. */
  predicate IsWrite(op: Op)
    decreases op, 0
  {
    if op.t == TxnOp then SomeWrite(op.thenOps) || SomeWrite(op.elseOps) else op.t != Get
  }

  predicate SomeWrite(ops: seq<Op>)
    decreases ops
  {
    exists i :: 0 <= i < |ops| && IsWrite(ops[i])
  }

  /** The search, which stops at the first write. */
  method IsWriteLoop(op: Op) returns (r: bool)
    ensures r == IsWrite(op)
    decreases op
  {
    if op.t == TxnOp {
      for i := 0 to |op.thenOps|
        invariant forall j :: 0 <= j < i ==> !IsWrite(op.thenOps[j])
      {
        var w := IsWriteLoop(op.thenOps[i]);
        if w { return true; }
      }
      for i := 0 to |op.elseOps|
        invariant forall j :: 0 <= j < i ==> !IsWrite(op.elseOps[j])
      {
        var w := IsWriteLoop(op.elseOps[i]);
        if w { return true; }
      }
      return false;
    }
    return op.t != Get;
  }

  /** The operations that may run, through all nested transactions. */
  function Leaves(op: Op): seq<OpType>
    decreases op, 0
  {
    if op.t == TxnOp then LeavesOf(op.thenOps) + LeavesOf(op.elseOps) else [op.t]
  }

  function LeavesOf(ops: seq<Op>): seq<OpType>
    decreases ops
  {
    if ops == [] then [] else Leaves(ops[0]) + LeavesOf(ops[1..])
  }

  predicate SomeNoGet(ts: seq<OpType>) { exists t <- ts :: t != Get }

  lemma SomeNoGetAppend(a: seq<OpType>, b: seq<OpType>)
    ensures SomeNoGet(a + b) <==> SomeNoGet(a) || SomeNoGet(b)
  {
    forall t | t in a ensures t in a + b {}
    forall t | t in b ensures t in a + b {}
  }

  lemma {:induction false} SomeWriteAppend(a: seq<Op>, b: seq<Op>)
    ensures SomeWrite(a + b) <==> SomeWrite(a) || SomeWrite(b)
  {
    hide IsWrite;
    forall i | 0 <= i < |a| ensures (a + b)[i] == a[i] {}
    forall i | 0 <= i < |b| ensures (a + b)[|a| + i] == b[i] {}
  }

  // An operation writes if and only if some operation that may run is no Get.
  lemma {:induction false} WritesIffSomeLeafDoes(op: Op)
    ensures IsWrite(op) <==> SomeNoGet(Leaves(op))
    decreases op, 0
  {
    if op.t == TxnOp {
      WritesIffSomeLeafOfDoes(op.thenOps);
      WritesIffSomeLeafOfDoes(op.elseOps);
      SomeNoGetAppend(LeavesOf(op.thenOps), LeavesOf(op.elseOps));
    } else {
      assert op.t in Leaves(op);
    }
  }

  lemma {:induction false} WritesIffSomeLeafOfDoes(ops: seq<Op>)
    ensures SomeWrite(ops) <==> SomeNoGet(LeavesOf(ops))
    decreases ops
  {
    if ops != [] {
      WritesIffSomeLeafDoes(ops[0]);
      WritesIffSomeLeafOfDoes(ops[1..]);
      SomeNoGetAppend(Leaves(ops[0]), LeavesOf(ops[1..]));
      assert ops == [ops[0]] + ops[1..];
      SomeWriteAppend([ops[0]], ops[1..]);
      assert SomeWrite([ops[0]]) <==> IsWrite([ops[0]][0]);
    }
  }
}
