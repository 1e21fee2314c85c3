/** The in-memory indexer: its state, its operations, and what a whole run means. */
module MemIndexers {
  import opened Wrappers
  import opened ByteStrings
  import opened SealTypes
  import opened Text

  datatype ChainTip = ChainTip(height: u32, hash: string)

  datatype TxStatus = Confirmed(height: u32, blockHash: string, confirmations: u32, time: int) | Unconfirmed {
    function Confirmations(): u32 {
      if Confirmed? then confirmations else 0
    }
  }

  datatype BtqTx = BtqTx(txid: string, raw: Bytes, status: TxStatus)

  datatype BtqTxOut = BtqTxOut(outpoint: BtqOutpoint, value: u64, scriptPubkey: Bytes, spent: bool)

  datatype IndexedOutpoint = IndexedOutpoint(
    output: Option<BtqTxOut>,
    spendingTxid: Option<string>,
    spendingConfirmations: u32)

  datatype Entry = Entry(view: IndexedOutpoint, spendHeight: Option<u32>)

  const DEFAULT_ENTRY := Entry(IndexedOutpoint(None, None, 0), None)

  /** One call on an indexer. */
  datatype Op =
    | Watch(outpoint: BtqOutpoint)
    | RecordOutput(outpoint: BtqOutpoint, out: BtqTxOut)
    | RecordSpend(outpoint: BtqOutpoint, tx: BtqTx)
    | UpdateConfirmations(outpoint: BtqOutpoint, depth: u32)
    | Rollback(toHeight: u32)
    | RescanFrom(fromHeight: u32)
    | SetTip(tip: ChainTip)

  // ----- one step ------------------------------------------------------

  datatype MemState = MemState(height: u32, tipHash: string, entries: map<string, Entry>) {
    /** `entry(k).or_default()`. */
    function EntryOr(k: string): Entry {
      if k in entries then entries[k] else DEFAULT_ENTRY
    }
  }

  const EMPTY_MEM := MemState(0, "", map[])

  function RollbackEntry(e: Entry, toHeight: u32): Entry {
    if e.spendHeight.Some? && e.spendHeight.value > toHeight
    then Entry(e.view.(spendingTxid := None, spendingConfirmations := 0), None)
    else e
  }

  function RescanEntry(e: Entry, fromHeight: u32): Entry {
    if e.spendHeight.Some? && e.spendHeight.value >= fromHeight
    then e.(view := e.view.(spendingConfirmations := 0))
    else e
  }

  function RollbackEntries(entries: map<string, Entry>, toHeight: u32): map<string, Entry> {
    map k | k in entries :: RollbackEntry(entries[k], toHeight)
  }

  function RescanEntries(entries: map<string, Entry>, fromHeight: u32): map<string, Entry> {
    map k | k in entries :: RescanEntry(entries[k], fromHeight)
  }

  function MemStep(m: MemState, op: Op): MemState {
    match op
    case Watch(o) => m.(entries := m.entries[Key(o) := m.EntryOr(Key(o))])
    case RecordOutput(o, out) =>
      var e := m.EntryOr(Key(o));
      m.(entries := m.entries[Key(o) := e.(view := e.view.(output := Some(out)))])
    case RecordSpend(o, tx) =>
      var e := m.EntryOr(Key(o));
      var view := e.view.(spendingTxid := Some(tx.txid), spendingConfirmations := tx.status.Confirmations());
      m.(entries := m.entries[Key(o) := Entry(view, Some(m.height))])
    case UpdateConfirmations(o, depth) =>
      var e := m.EntryOr(Key(o));
      m.(entries := m.entries[Key(o) := e.(view := e.view.(spendingConfirmations := depth))])
    case Rollback(h) => m.(height := h, entries := RollbackEntries(m.entries, h))
    case RescanFrom(h) => m.(entries := RescanEntries(m.entries, h))
    case SetTip(tip) => m.(height := tip.height, tipHash := tip.hash)
  }

  // ----- the class -----------------------------------------------------

  class MemIndexer {
    var height: u32
    var tipHash: string
    var entries: map<string, Entry>

    function State(): MemState
      reads this
    {
      MemState(height, tipHash, entries)
    }

    constructor ()
      ensures State() == EMPTY_MEM
    {
      height, tipHash, entries := 0, "", map[];
    }

    method Tip() returns (tip: ChainTip)
      ensures tip == ChainTip(State().height, State().tipHash)
    {
      tip := ChainTip(height, tipHash);
    }

    method Watch(outpoint: BtqOutpoint)
      modifies this
      ensures State() == MemStep(old(State()), Op.Watch(outpoint))
    {
      EntryOrDefault(Key(outpoint));
    }

    /** Makes sure there is an entry. */
    method EntryOrDefault(k: string)
      modifies this`entries
      ensures k in entries && entries == old(entries)[k := old(State()).EntryOr(k)]
    {
      if k !in entries {
        entries := entries[k := DEFAULT_ENTRY];
      }
    }

    method RecordOutput(outpoint: BtqOutpoint, out: BtqTxOut)
      modifies this
      ensures State() == MemStep(old(State()), Op.RecordOutput(outpoint, out))
    {
      var k := Key(outpoint);
      EntryOrDefault(k);
      entries := entries[k := entries[k].(view := entries[k].view.(output := Some(out)))];
    }

    method RecordSpend(outpoint: BtqOutpoint, tx: BtqTx)
      modifies this
      ensures State() == MemStep(old(State()), Op.RecordSpend(outpoint, tx))
    {
      var k := Key(outpoint);
      EntryOrDefault(k);
      var e := entries[k];
      e := e.(view := e.view.(spendingTxid := Some(tx.txid)));
      e := e.(view := e.view.(spendingConfirmations := tx.status.Confirmations()));
      e := e.(spendHeight := Some(height));
      entries := entries[k := e];
    }

    method UpdateConfirmations(outpoint: BtqOutpoint, depth: u32)
      modifies this
      ensures State() == MemStep(old(State()), Op.UpdateConfirmations(outpoint, depth))
    {
      var k := Key(outpoint);
      EntryOrDefault(k);
      entries := entries[k := entries[k].(view := entries[k].view.(spendingConfirmations := depth))];
    }

    method Get(outpoint: BtqOutpoint) returns (r: Option<IndexedOutpoint>)
      ensures r == MemGet(State(), outpoint)
    {
      var k := Key(outpoint);
      r := if k in entries then Some(entries[k].view) else None;
    }

    method Rollback(toHeight: u32)
      modifies this
      ensures State() == MemStep(old(State()), Op.Rollback(toHeight))
    {
      var todo := entries.Keys;
      ghost var before := entries;
      while todo != {}
        invariant todo <= entries.Keys == before.Keys
        invariant forall k :: k in entries ==>
          entries[k] == if k in todo then before[k] else RollbackEntry(before[k], toHeight)
        invariant height == old(height) && tipHash == old(tipHash)
        decreases |todo|
      {
        var k :| k in todo;
        var e := entries[k];
        if e.spendHeight.Some? && e.spendHeight.value > toHeight {
          e := e.(view := e.view.(spendingTxid := None));
          e := e.(view := e.view.(spendingConfirmations := 0));
          e := e.(spendHeight := None);
          entries := entries[k := e];
        }
        todo := todo - {k};
      }
      assert entries == RollbackEntries(before, toHeight);
      height := toHeight;
    }

    method RescanFrom(fromHeight: u32)
      modifies this
      ensures State() == MemStep(old(State()), Op.RescanFrom(fromHeight))
    {
      var todo := entries.Keys;
      ghost var before := entries;
      while todo != {}
        invariant todo <= entries.Keys == before.Keys
        invariant forall k :: k in entries ==>
          entries[k] == if k in todo then before[k] else RescanEntry(before[k], fromHeight)
        invariant height == old(height) && tipHash == old(tipHash)
        decreases |todo|
      {
        var k :| k in todo;
        var e := entries[k];
        if e.spendHeight.Some? && e.spendHeight.value >= fromHeight {
          e := e.(view := e.view.(spendingConfirmations := 0));
          entries := entries[k := e];
        }
        todo := todo - {k};
      }
      assert entries == RescanEntries(before, fromHeight);
    }

    method SetTip(tip: ChainTip)
      modifies this
      ensures State() == MemStep(old(State()), Op.SetTip(tip))
    {
      height := tip.height;
      tipHash := tip.hash;
    }
  }

  function MemGet(m: MemState, o: BtqOutpoint): Option<IndexedOutpoint> {
    if Key(o) in m.entries then Some(m.entries[Key(o)].view) else None
  }

  // ----- runs ----------------------------------------------------------

  function MemRun(ops: seq<Op>): MemState {
    if ops == [] then EMPTY_MEM else MemStep(MemRun(ops[..|ops| - 1]), ops[|ops| - 1])
  }

  /** The tip height after a run: what the last `set_tip` or `rollback` said. */
  function HeightAfter(ops: seq<Op>): u32 {
    if ops == [] then 0
    else
      var n := |ops| - 1;
      match ops[n]
      case SetTip(tip) => tip.height
      case Rollback(h) => h
      case _ => HeightAfter(ops[..n])
  }

  /** The i-th operation recorded a spend of `o` that still stands: nothing recorded another spend of `o`
      afterwards, and no later rollback went below the tip height at which it was recorded. */
  predicate StandingSpend(ops: seq<Op>, o: BtqOutpoint, i: nat) {
    && i < |ops|
    && ops[i].RecordSpend? && ops[i].outpoint == o
    && forall j :: i < j < |ops| ==>
         && !(ops[j].RecordSpend? && ops[j].outpoint == o)
         && (ops[j].Rollback? ==> ops[j].toHeight >= HeightAfter(ops[..i]))
  }

  /** The tip hash after a run: what the last `set_tip` said, which a rollback keeps. */
  function TipAfter(ops: seq<Op>): string {
    if ops == [] then ""
    else
      var n := |ops| - 1;
      if ops[n].SetTip? then ops[n].tip.hash else TipAfter(ops[..n])
  }

  lemma {:induction false} RunHeight(ops: seq<Op>)
    ensures MemRun(ops).height == HeightAfter(ops) && MemRun(ops).tipHash == TipAfter(ops)
  {
    if ops != [] {
      RunHeight(ops[..|ops| - 1]);
    }
  }

  lemma StandingUnique(ops: seq<Op>, o: BtqOutpoint, i: nat, j: nat)
    requires StandingSpend(ops, o, i) && StandingSpend(ops, o, j)
    ensures i == j
  {
  }

  /** How one more operation changes which spends stand. */
  lemma StandingStep(ops: seq<Op>, op: Op, o: BtqOutpoint, i: nat)
    ensures StandingSpend(ops + [op], o, i) <==>
      if op.RecordSpend? && op.outpoint == o then i == |ops|
      else StandingSpend(ops, o, i) && (op.Rollback? ==> op.toHeight >= HeightAfter(ops[..i]))
  {
    var all := ops + [op];
    assert all[|ops|] == op;
    if i < |ops| {
      assert all[..i] == ops[..i];
      assert forall j :: 0 <= j < |ops| ==> all[j] == ops[j];
    }
  }

  /** What the entry of `o` says after a run about the spend of `o`. */
  function ShownSpend(ops: seq<Op>, o: BtqOutpoint): (Option<string>, Option<u32>) {
    var e := MemRun(ops).EntryOr(Key(o));
    (e.view.spendingTxid, e.spendHeight)
  }

  lemma OtherKeysKept(m: MemState, op: Op, o: BtqOutpoint)
    requires !op.Rollback? && !(op.RecordSpend? && op.outpoint == o)
    ensures MemStep(m, op).EntryOr(Key(o)).view.spendingTxid == m.EntryOr(Key(o)).view.spendingTxid
    ensures MemStep(m, op).EntryOr(Key(o)).spendHeight == m.EntryOr(Key(o)).spendHeight
  {
    if op.Watch? || op.RecordOutput? || op.RecordSpend? || op.UpdateConfirmations? {
      KeyInjective(op.outpoint, o);
    }
  }

  /** The entry shows exactly the standing spend, with the tip height of its recording. */
  lemma {:induction false} ShownIsStanding(ops: seq<Op>, o: BtqOutpoint) returns (standing: Option<nat>)
    ensures standing.None? ==> (forall i: nat :: !StandingSpend(ops, o, i)) && ShownSpend(ops, o) == (None, None)
    ensures standing.Some? ==>
      var i := standing.value;
      StandingSpend(ops, o, i) && ShownSpend(ops, o) == (Some(ops[i].tx.txid), Some(HeightAfter(ops[..i])))
  {
    if ops == [] {
      standing := None;
    } else {
      var n := |ops| - 1;
      var init, op := ops[..n], ops[n];
      assert ops == init + [op];
      var before := ShownIsStanding(init, o);
      RunHeight(init);
      forall i: nat ensures StandingSpend(ops, o, i) <==>
        if op.RecordSpend? && op.outpoint == o then i == n
        else StandingSpend(init, o, i) && (op.Rollback? ==> op.toHeight >= HeightAfter(init[..i]))
      {
        StandingStep(init, op, o, i);
      }
      if op.RecordSpend? && op.outpoint == o {
        standing := Some(n);
      } else if op.Rollback? {
        if before.Some? && op.toHeight >= HeightAfter(init[..before.value]) {
          standing := before;
          assert ops[..before.value] == init[..before.value];
        } else {
          standing := None;
          StandingNone(init, o, before);
        }
      } else {
        standing := before;
        OtherKeysKept(MemRun(init), op, o);
        if before.Some? {
          assert ops[..before.value] == init[..before.value];
        }
      }
    }
  }

  lemma StandingNone(ops: seq<Op>, o: BtqOutpoint, standing: Option<nat>)
    requires standing.Some? ==> StandingSpend(ops, o, standing.value)
    ensures standing.Some? ==> forall i: nat :: StandingSpend(ops, o, i) ==> i == standing.value
  {
  }

  /** The meaning of a run: an outpoint shows spending txid `t` exactly when some recorded spend of it by `t`
      still stands. */
  lemma RunMeaning(ops: seq<Op>, o: BtqOutpoint, t: string)
    ensures (MemGet(MemRun(ops), o).Some? && MemGet(MemRun(ops), o).value.spendingTxid == Some(t)) <==>
              exists i: nat :: StandingSpend(ops, o, i) && ops[i].tx.txid == t
  {
    var standing := ShownIsStanding(ops, o);
    if standing.Some? {
      forall i: nat | StandingSpend(ops, o, i)
        ensures i == standing.value
      {
        StandingUnique(ops, o, i, standing.value);
      }
    }
  }

  /** What the j-th operation makes the shown confirmations of `o` be, if it decides them at all: a rollback
      and a rescan do through the spend that stood before them. */
  ghost function DecidesConfirmations(ops: seq<Op>, o: BtqOutpoint, j: nat): Option<u32>
    requires j < |ops|
  {
    match ops[j]
    case RecordSpend(o', tx) =>
      if o' != o then None
      else (match tx.status
            case Confirmed(_, _, confirmations, _) => Some(confirmations)
            case Unconfirmed => Some(0))
    case UpdateConfirmations(o', depth) => if o' == o then Some(depth) else None
    case Rollback(h) =>
      if exists i: nat :: StandingSpend(ops[..j], o, i) && HeightAfter(ops[..i]) > h then Some(0) else None
    case RescanFrom(h) =>
      if exists i: nat :: StandingSpend(ops[..j], o, i) && HeightAfter(ops[..i]) >= h then Some(0) else None
    case _ => None
  }

  /** The confirmations of `o` after a run, by the last operation that decided them; zero if none did. */
  ghost function LastConfirmations(ops: seq<Op>, o: BtqOutpoint, n: nat): u32
    requires n <= |ops|
  {
    if n == 0 then 0
    else if DecidesConfirmations(ops, o, n - 1).Some? then DecidesConfirmations(ops, o, n - 1).value
    else LastConfirmations(ops, o, n - 1)
  }

  /** The output of `o` after a run, by the last operation that recorded one. */
  function LastOutput(ops: seq<Op>, o: BtqOutpoint, n: nat): Option<BtqTxOut>
    requires n <= |ops|
  {
    if n == 0 then None
    else if ops[n - 1].RecordOutput? && ops[n - 1].outpoint == o then Some(ops[n - 1].out)
    else LastOutput(ops, o, n - 1)
  }

  lemma StandingHeight(ops: seq<Op>, o: BtqOutpoint, n: nat, h: u32)
    requires n <= |ops|
    ensures var e := MemRun(ops[..n]).EntryOr(Key(o));
      && ((exists i: nat :: StandingSpend(ops[..n], o, i) && HeightAfter(ops[..i]) > h) <==>
            e.spendHeight.Some? && e.spendHeight.value > h)
      && ((exists i: nat :: StandingSpend(ops[..n], o, i) && HeightAfter(ops[..i]) >= h) <==>
            e.spendHeight.Some? && e.spendHeight.value >= h)
  {
    var standing := ShownIsStanding(ops[..n], o);
    forall i: nat | StandingSpend(ops[..n], o, i)
      ensures standing == Some(i) && ops[..n][..i] == ops[..i]
    {
      StandingUnique(ops[..n], o, i, standing.value);
    }
  }

  /** A rollback or rescan changes the view of `o` through the spend that stands before it. */
  lemma ViewStepEverywhere(ops: seq<Op>, o: BtqOutpoint, n: nat)
    requires n < |ops| && (ops[n].Rollback? || ops[n].RescanFrom?)
    ensures var before := MemRun(ops[..n]).EntryOr(Key(o)).view;
      var after := MemStep(MemRun(ops[..n]), ops[n]).EntryOr(Key(o)).view;
      var decided := DecidesConfirmations(ops, o, n);
      && after.spendingConfirmations == (if decided.Some? then decided.value else before.spendingConfirmations)
      && after.output == before.output
  {
    StandingHeight(ops, o, n, if ops[n].Rollback? then ops[n].toHeight else ops[n].fromHeight);
  }

  lemma ViewStep(m: MemState, op: Op, o: BtqOutpoint)
    requires !op.Rollback? && !op.RescanFrom?
    ensures var before, after := m.EntryOr(Key(o)).view, MemStep(m, op).EntryOr(Key(o)).view;
      && after.spendingConfirmations ==
           (if op.RecordSpend? && op.outpoint == o then
              (if op.tx.status.Confirmed? then op.tx.status.confirmations else 0)
            else if op.UpdateConfirmations? && op.outpoint == o then op.depth
            else before.spendingConfirmations)
      && after.output == if op.RecordOutput? && op.outpoint == o then Some(op.out) else before.output
  {
    if !op.SetTip? {
      KeyInjective(op.outpoint, o);
    }
  }

  /** The rest of the meaning of a run: confirmations and output are those of the last operation that decided
      them. */
  lemma {:induction false} ViewMeaning(ops: seq<Op>, o: BtqOutpoint, n: nat)
    requires n <= |ops|
    ensures MemRun(ops[..n]).EntryOr(Key(o)).view.spendingConfirmations == LastConfirmations(ops, o, n)
    ensures MemRun(ops[..n]).EntryOr(Key(o)).view.output == LastOutput(ops, o, n)
  {
    if n > 0 {
      var op := ops[n - 1];
      ViewMeaning(ops, o, n - 1);
      assert ops[..n][..n - 1] == ops[..n - 1];
      if op.Rollback? || op.RescanFrom? {
        ViewStepEverywhere(ops, o, n - 1);
      } else {
        ViewStep(MemRun(ops[..n - 1]), op, o);
      }
    }
  }

  /** The output is the one of the last recording, and there is none before the first. */
  lemma {:induction false} LastOutputExact(ops: seq<Op>, o: BtqOutpoint, n: nat, out: BtqTxOut)
    requires n <= |ops|
    ensures LastOutput(ops, o, n) == Some(out) <==>
      exists i :: 0 <= i < n && ops[i] == RecordOutput(o, out)
                  && forall j :: i < j < n ==> !(ops[j].RecordOutput? && ops[j].outpoint == o)
  {
    if n > 0 {
      LastOutputExact(ops, o, n - 1, out);
      if ops[n - 1].RecordOutput? && ops[n - 1].outpoint == o {
        assert ops[n - 1] == RecordOutput(o, ops[n - 1].out);
      }
    }
  }

  /** Every part of a read after a run: nothing for an outpoint no operation named; else the output recorded last,
      the txid of the spend that stands, and the confirmations decided last. */
  lemma ReadMeaning(ops: seq<Op>, o: BtqOutpoint)
    ensures MemGet(MemRun(ops), o).None? <==> forall i :: 0 <= i < |ops| ==> !Touches(ops[i], o)
    ensures MemGet(MemRun(ops), o).Some? ==>
      var view := MemGet(MemRun(ops), o).value;
      && view.output == LastOutput(ops, o, |ops|)
      && view.spendingConfirmations == LastConfirmations(ops, o, |ops|)
      && forall t :: view.spendingTxid == Some(t) <==> exists i: nat :: StandingSpend(ops, o, i) && ops[i].tx.txid == t
  {
    RunInvariant(ops);
    ViewMeaning(ops, o, |ops|);
    assert ops[..|ops|] == ops;
    if MemGet(MemRun(ops), o).Some? {
      forall t
        ensures MemGet(MemRun(ops), o).value.spendingTxid == Some(t) <==>
                  exists i: nat :: StandingSpend(ops, o, i) && ops[i].tx.txid == t
      {
        RunMeaning(ops, o, t);
      }
    }
  }

  predicate Touches(op: Op, o: BtqOutpoint) {
    (op.Watch? || op.RecordOutput? || op.RecordSpend? || op.UpdateConfirmations?) && op.outpoint == o
  }

  /** In every reachable state a spending txid and a spend height come together, and the tracked outpoints are
      exactly those some operation named: none is ever lost. */
  lemma {:induction false} RunInvariant(ops: seq<Op>)
    ensures forall k :: k in MemRun(ops).entries ==>
              (MemRun(ops).entries[k].view.spendingTxid.Some? <==> MemRun(ops).entries[k].spendHeight.Some?)
    ensures forall o :: Key(o) in MemRun(ops).entries <==> exists i :: 0 <= i < |ops| && Touches(ops[i], o)
  {
    if ops != [] {
      var n := |ops| - 1;
      RunInvariant(ops[..n]);
      forall o
        ensures Key(o) in MemRun(ops).entries <==> exists i :: 0 <= i < |ops| && Touches(ops[i], o)
      {
        if Touches(ops[n], o) {
          assert Key(o) in MemRun(ops).entries;
        } else {
          NamedKeys(MemRun(ops[..n]), ops[n], o);
          assert forall i :: 0 <= i < n ==> ops[i] == ops[..n][i];
        }
      }
    }
  }

  lemma NamedKeys(m: MemState, op: Op, o: BtqOutpoint)
    requires !Touches(op, o)
    ensures Key(o) in MemStep(m, op).entries <==> Key(o) in m.entries
  {
    if op.Watch? || op.RecordOutput? || op.RecordSpend? || op.UpdateConfirmations? {
      KeyInjective(op.outpoint, o);
    }
  }

  // ----- reorgs --------------------------------------------------------

  /** After any part of the run and a rollback to any height, no standing spend was confirmed above it. */
  ghost predicate SafeUnderReorg(ops: seq<Op>) {
    forall n, h: u32, o, i: nat ::
      0 <= n <= |ops| && StandingSpend(ops[..n] + [Rollback(h)], o, i) && ops[i].tx.status.Confirmed? ==>
        ops[i].tx.status.height <= h
  }

  /** Every confirmed spend was recorded when the tip was at or above its block. */
  predicate RecordedBelowTip(ops: seq<Op>) {
    forall i :: 0 <= i < |ops| && ops[i].RecordSpend? && ops[i].tx.status.Confirmed? ==>
      ops[i].tx.status.height <= HeightAfter(ops[..i])
  }

  /** Rollback works on the tip height at recording, not on the block height; so it protects against reorgs
      exactly when spends are recorded with the tip at or above their blocks. */
  lemma ReorgSafety(ops: seq<Op>)
    ensures SafeUnderReorg(ops) <==> RecordedBelowTip(ops)
  {
    if RecordedBelowTip(ops) {
      forall n, h: u32, o, i: nat |
        0 <= n <= |ops| && StandingSpend(ops[..n] + [Rollback(h)], o, i) && ops[i].tx.status.Confirmed?
        ensures ops[i].tx.status.height <= h
      {
        StandingStep(ops[..n], Rollback(h), o, i);
        assert ops[..n][i] == ops[i] && ops[..n][..i] == ops[..i];
      }
    }
    if SafeUnderReorg(ops) {
      forall i | 0 <= i < |ops| && ops[i].RecordSpend? && ops[i].tx.status.Confirmed?
        ensures ops[i].tx.status.height <= HeightAfter(ops[..i])
      {
        var h := HeightAfter(ops[..i]);
        var o := ops[i].outpoint;
        assert ops[..i + 1][..i] == ops[..i];
        assert StandingSpend(ops[..i + 1], o, i);
        StandingStep(ops[..i + 1], Rollback(h), o, i);
      }
    }
  }

  /** A rescan too works on the tip height at recording: it clears the shown confirmations of a standing spend
      exactly when its target is no higher than that. */
  lemma RescanClears(ops: seq<Op>, o: BtqOutpoint, i: nat, h: u32)
    requires StandingSpend(ops, o, i)
    ensures var before := MemRun(ops).EntryOr(Key(o)).view.spendingConfirmations;
      MemRun(ops + [RescanFrom(h)]).EntryOr(Key(o)).view.spendingConfirmations ==
        if h <= HeightAfter(ops[..i]) then 0 else before
  {
    var standing := ShownIsStanding(ops, o);
    StandingUnique(ops, o, i, standing.value);
    assert (ops + [RescanFrom(h)])[..|ops|] == ops;
  }

  /** So a rescan clears a confirmed spend with shown confirmations exactly from its block downwards, for every
      target, exactly when the spend was recorded with the tip at its block. */
  lemma RescanByBlock(ops: seq<Op>, o: BtqOutpoint, i: nat)
    requires StandingSpend(ops, o, i) && ops[i].tx.status.Confirmed?
    requires MemRun(ops).EntryOr(Key(o)).view.spendingConfirmations != 0
    ensures (forall h: u32 ::
               MemRun(ops + [RescanFrom(h)]).EntryOr(Key(o)).view.spendingConfirmations == 0 <==>
                 h <= ops[i].tx.status.height)
            <==> ops[i].tx.status.height == HeightAfter(ops[..i])
  {
    var block, recorded := ops[i].tx.status.height, HeightAfter(ops[..i]);
    forall h: u32
      ensures MemRun(ops + [RescanFrom(h)]).EntryOr(Key(o)).view.spendingConfirmations == 0 <==> h <= recorded
    {
      RescanClears(ops, o, i, h);
    }
    if forall h: u32 ::
         MemRun(ops + [RescanFrom(h)]).EntryOr(Key(o)).view.spendingConfirmations == 0 <==> h <= block
    {
      assert MemRun(ops + [RescanFrom(block)]).EntryOr(Key(o)).view.spendingConfirmations == 0;
      assert MemRun(ops + [RescanFrom(recorded)]).EntryOr(Key(o)).view.spendingConfirmations == 0;
    }
  }

  function Min(a: u32, b: u32): u32 {
    if a <= b then a else b
  }

  /** Rolling back twice is rolling back to the lower height, once is enough, and rescans commute. */
  lemma RollbackAlgebra(entries: map<string, Entry>, a: u32, b: u32)
    ensures RollbackEntries(RollbackEntries(entries, a), b) == RollbackEntries(entries, Min(a, b))
    ensures RollbackEntries(RollbackEntries(entries, a), a) == RollbackEntries(entries, a)
    ensures RescanEntries(RollbackEntries(entries, a), b) == RollbackEntries(RescanEntries(entries, b), a)
  {
    assert forall k :: k in entries ==>
      RollbackEntry(RollbackEntry(entries[k], a), b) == RollbackEntry(entries[k], Min(a, b));
  }

  /** A rollback keeps the tip hash and can raise the height: it changes the entries exactly when some spend
      was recorded above the target, but moves the tip in any case. */
  lemma RollbackTip(m: MemState, h: u32)
    ensures MemStep(m, Rollback(h)).tipHash == m.tipHash && MemStep(m, Rollback(h)).height == h
    ensures MemStep(m, Rollback(h)).entries == m.entries <==>
              forall k :: k in m.entries && m.entries[k].spendHeight.Some? ==> m.entries[k].spendHeight.value <= h
  {
    var after := MemStep(m, Rollback(h)).entries;
    if after == m.entries {
      forall k | k in m.entries && m.entries[k].spendHeight.Some?
        ensures m.entries[k].spendHeight.value <= h
      {
        assert after[k] == RollbackEntry(m.entries[k], h);
      }
    }
  }
}
