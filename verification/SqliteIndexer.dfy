/** The SQL-backed indexer, as the effect of each statement on its rows, and its simulation by the in-memory
    indexer over whole runs. */
module SqliteIndexers {
  import opened Wrappers
  import opened ByteStrings
  import opened Errors
  import opened SealTypes
  import opened Text
  import opened MemIndexers

  // ----- columns -------------------------------------------------------

  type i64 = x: int | -0x8000_0000_0000_0000 <= x < 0x8000_0000_0000_0000

  /** `as i64`, `as u64` and `as u32`: two's complement, truncating. */
  function U64AsI64(v: u64): i64 {
    if v < 0x8000_0000_0000_0000 then v else v - 0x1_0000_0000_0000_0000
  }

  function I64AsU64(v: i64): u64 {
    if v >= 0 then v else v + 0x1_0000_0000_0000_0000
  }

  function I64AsU32(v: i64): u32 {
    v % 0x1_0000_0000
  }

  function BoolAsI64(b: bool): i64 {
    if b then 1 else 0
  }

  /** The casts keep the low bits, and so the value whenever it fits. */
  lemma CastsExact(v: u64, w: i64)
    ensures (U64AsI64(v) - v) % 0x1_0000_0000_0000_0000 == 0 && (I64AsU64(w) - w) % 0x1_0000_0000_0000_0000 == 0
    ensures (I64AsU32(w) - w) % 0x1_0000_0000 == 0
    ensures I64AsU64(U64AsI64(v)) == v
    ensures 0 <= w < 0x1_0000_0000 ==> I64AsU32(w) == w
    ensures BoolAsI64(true) == 1 && BoolAsI64(false) == 0
  {
    assert w == 0x1_0000_0000 * (w / 0x1_0000_0000) + w % 0x1_0000_0000;
  }

  /** A row of `outpoints`; a nullable column is an option. */
  datatype Row = Row(
    txid: string,
    vout: i64,
    value: i64,
    spk: Option<Bytes>,
    spent: i64,
    spendingTxid: Option<string>,
    spendingConfs: i64,
    spendHeight: Option<i64>)

  type Table = map<string, Row>

  // ----- statements ----------------------------------------------------

  function InsertOrIgnore(rows: Table, k: string, row: Row): Table {
    if k in rows then rows else rows[k := row]
  }

  /** `UPDATE outpoints SET ... WHERE k = ?`. */
  function UpdateKey(rows: Table, k: string, set_: Row -> Row): Table {
    if k in rows then rows[k := set_(rows[k])] else rows
  }

  /** `UPDATE outpoints SET ... WHERE ...`. */
  function UpdateWhere(rows: Table, where_: Row -> bool, set_: Row -> Row): Table {
    map k | k in rows :: if where_(rows[k]) then set_(rows[k]) else rows[k]
  }

  /** Comparisons with NULL are never satisfied. */
  predicate SqlGreater(column: Option<i64>, v: i64) {
    column.Some? && column.value > v
  }

  predicate SqlAtLeast(column: Option<i64>, v: i64) {
    column.Some? && column.value >= v
  }

  function ReadMeta(meta: map<string, string>): (u32, string) {
    var parsed := if "height" in meta then ParseU32(meta["height"]) else None;
    (if parsed.Some? then parsed.value else 0, if "tip" in meta then meta["tip"] else "")
  }

  function WriteMeta(meta: map<string, string>, height: u32, tip: string): map<string, string> {
    meta["height" := Decimal(height)]["tip" := tip]
  }

  /** What is read back: zero for an absent or unreadable height, nothing for an absent tip. */
  lemma ReadMetaExact(meta: map<string, string>)
    ensures "height" in meta && ParseU32(meta["height"]).Some? ==> ReadMeta(meta).0 == ParseU32(meta["height"]).value
    ensures "height" !in meta || ParseU32(meta["height"]).None? ==> ReadMeta(meta).0 == 0
    ensures ReadMeta(meta).1 == if "tip" in meta then meta["tip"] else ""
  {
  }

  lemma MetaRoundTrip(meta: map<string, string>, height: u32, tip: string)
    ensures ReadMeta(WriteMeta(meta, height, tip)) == (height, tip)
    ensures WriteMeta(meta, height, tip) == meta + map["height" := Decimal(height), "tip" := tip]
  {
    DecimalRoundTrip(height);
    assert "height"[0] != "tip"[0];
  }

  // ----- one step ------------------------------------------------------

  datatype SqlState = SqlState(rows: Table, meta: map<string, string>, height: u32, tipHash: string)

  function RollbackRow(r: Row): Row {
    r.(spendingTxid := None, spendingConfs := 0, spendHeight := None)
  }

  function SqlStep(s: SqlState, op: Op): SqlState {
    match op
    case Watch(o) =>
      s.(rows := InsertOrIgnore(s.rows, Key(o), Row(ReversedHex(o.txid), o.vout, 0, None, 0, None, 0, None)))
    case RecordOutput(o, out) =>
      s.(rows := UpdateKey(s.rows, Key(o), (r: Row) =>
        r.(value := U64AsI64(out.value), spk := Some(out.scriptPubkey), spent := BoolAsI64(out.spent))))
    case RecordSpend(o, tx) =>
      s.(rows := UpdateKey(s.rows, Key(o), (r: Row) =>
        r.(spendingTxid := Some(tx.txid), spendingConfs := tx.status.Confirmations(), spendHeight := Some(s.height))))
    case UpdateConfirmations(o, depth) =>
      s.(rows := UpdateKey(s.rows, Key(o), (r: Row) => r.(spendingConfs := depth)))
    case Rollback(h) =>
      SqlState(UpdateWhere(s.rows, (r: Row) => SqlGreater(r.spendHeight, h), RollbackRow),
               WriteMeta(s.meta, h, s.tipHash), h, s.tipHash)
    case RescanFrom(h) =>
      s.(rows := UpdateWhere(s.rows, (r: Row) => SqlAtLeast(r.spendHeight, h), (r: Row) => r.(spendingConfs := 0)))
    case SetTip(tip) =>
      SqlState(s.rows, WriteMeta(s.meta, tip.height, tip.hash), tip.height, tip.hash)
  }

  /** What the engine answers during one call: whether the statement on the rows runs, and whether the two
      writes to `meta` do. A statement that fails changes nothing. */
  datatype Engine = Engine(rows: bool, height: bool, tip: bool)

  const NO_FAILURE := Engine(true, true, true)

  /** `write_meta`: the tip is not attempted when the height fails. */
  function TryMeta(meta: map<string, string>, height: u32, tip: string, engine: Engine): map<string, string> {
    if !engine.height then meta
    else if !engine.tip then meta["height" := Decimal(height)]
    else WriteMeta(meta, height, tip)
  }

  /** One operation on an engine that may fail. A rollback whose rows are done keeps them, and its new height,
      when `meta` fails; `set_tip` drops every failure. */
  function SqlTry(s: SqlState, op: Op, engine: Engine): SqlState {
    match op
    case SetTip(tip) => SqlStep(s, op).(meta := TryMeta(s.meta, tip.height, tip.hash, engine))
    case Rollback(h) =>
      if engine.rows then SqlStep(s, op).(meta := TryMeta(s.meta, h, s.tipHash, engine)) else s
    case _ => if engine.rows then SqlStep(s, op) else s
  }

  /** What the call returns. */
  function SqlAnswer(op: Op, engine: Engine): Outcome<()> {
    match op
    case SetTip(_) => Success(())
    case Rollback(_) => if engine == NO_FAILURE then Success(()) else Failure(Persistence)
    case _ => if engine.rows then Success(()) else Failure(Persistence)
  }

  /** What an answer says: a call that succeeds did all it should; one that fails did nothing, or was a rollback
      that did not write out the tip; and `set_tip` never fails. */
  lemma AnswerExact(s: SqlState, op: Op, engine: Engine)
    ensures SqlAnswer(op, engine) == Success(()) <==>
      op.SetTip? || (engine.rows && (op.Rollback? ==> engine.height && engine.tip))
    ensures SqlAnswer(op, engine).Failure? ==> SqlAnswer(op, engine) == Failure(Persistence)
    ensures SqlAnswer(op, engine).Success? && !op.SetTip? ==> SqlTry(s, op, engine) == SqlStep(s, op)
    ensures SqlAnswer(op, engine).Failure? ==>
      SqlTry(s, op, engine) == if op.Rollback? && engine.rows
        then SqlStep(s, op).(meta := if engine.height then s.meta["height" := Decimal(op.toHeight)] else s.meta)
        else s
  {
  }

  /** Opening a database that holds these tables: height and tip are read back from `meta`. */
  function Open(rows: Table, meta: map<string, string>): SqlState {
    SqlState(rows, meta, ReadMeta(meta).0, ReadMeta(meta).1)
  }

  function GetOwned(s: SqlState, o: BtqOutpoint): Option<IndexedOutpoint> {
    if Key(o) !in s.rows then None
    else
      var r := s.rows[Key(o)];
      // reading NULL as a blob is an error, which the code turns into "no row"
      if r.spk.None? then None
      else Some(IndexedOutpoint(Some(BtqTxOut(o, I64AsU64(r.value), r.spk.value, r.spent != 0)),
                                r.spendingTxid, I64AsU32(r.spendingConfs)))
  }

  // ----- the class -----------------------------------------------------

  class SqliteIndexer {
    /** The two tables of the connection. */
    var rows: Table
    var meta: map<string, string>
    var height: u32
    var tipHash: string

    function State(): SqlState
      reads this
    {
      SqlState(rows, meta, height, tipHash)
    }

    constructor (rows: Table, meta: map<string, string>, height: u32, tipHash: string)
      ensures State() == SqlState(rows, meta, height, tipHash)
    {
      this.rows, this.meta, this.height, this.tipHash := rows, meta, height, tipHash;
    }

    /** Opens a database that holds these tables, both empty when it is new. A row of `meta` that cannot be
        read counts as absent. */
    static method Connect(rows: Table, meta: map<string, string>,
                          connected: bool, created: bool, heightRead: bool, tipRead: bool)
        returns (r: Outcome<SqliteIndexer>)
      ensures r == Failure(Persistence) || (r.Success? && fresh(r.value))
      ensures r.Success? <==> connected && created
      ensures r.Success? && heightRead && tipRead ==> r.value.State() == Open(rows, meta)
      ensures r.Success? ==>
        r.value.State() == SqlState(rows, meta, if heightRead then ReadMeta(meta).0 else 0,
                                    if tipRead then ReadMeta(meta).1 else "")
    {
      if !connected || !created {
        return Failure(Persistence);
      }
      var height: u32, tip := 0, "";
      if heightRead && "height" in meta {
        var parsed := ParseU32(meta["height"]);
        height := if parsed.Some? then parsed.value else 0;
      }
      if tipRead && "tip" in meta {
        tip := meta["tip"];
      }
      var indexer := new SqliteIndexer(rows, meta, height, tip);
      r := Success(indexer);
    }

    method Tip() returns (tip: ChainTip)
      ensures tip == ChainTip(State().height, State().tipHash)
    {
      tip := ChainTip(height, tipHash);
    }

    method Watch(outpoint: BtqOutpoint, engine: Engine) returns (r: Outcome<()>)
      modifies this`rows
      ensures State() == SqlTry(old(State()), Op.Watch(outpoint), engine)
      ensures r == SqlAnswer(Op.Watch(outpoint), engine)
    {
      if !engine.rows {
        return Failure(Persistence);
      }
      rows := InsertOrIgnore(rows, Key(outpoint),
                             Row(ReversedHex(outpoint.txid), outpoint.vout, 0, None, 0, None, 0, None));
      r := Success(());
    }

    method RecordOutput(outpoint: BtqOutpoint, out: BtqTxOut, engine: Engine) returns (r: Outcome<()>)
      modifies this`rows
      ensures State() == SqlTry(old(State()), Op.RecordOutput(outpoint, out), engine)
      ensures r == SqlAnswer(Op.RecordOutput(outpoint, out), engine)
    {
      if !engine.rows {
        return Failure(Persistence);
      }
      var k := Key(outpoint);
      if k in rows {
        var spent := BoolAsI64(out.spent);
        rows := rows[k := rows[k].(value := U64AsI64(out.value), spk := Some(out.scriptPubkey), spent := spent)];
      }
      r := Success(());
    }

    method RecordSpend(outpoint: BtqOutpoint, tx: BtqTx, engine: Engine) returns (r: Outcome<()>)
      modifies this`rows
      ensures State() == SqlTry(old(State()), Op.RecordSpend(outpoint, tx), engine)
      ensures r == SqlAnswer(Op.RecordSpend(outpoint, tx), engine)
    {
      if !engine.rows {
        return Failure(Persistence);
      }
      var confs := tx.status.Confirmations();
      var k := Key(outpoint);
      if k in rows {
        var at: i64 := height;
        rows := rows[k := rows[k].(spendingTxid := Some(tx.txid), spendingConfs := confs, spendHeight := Some(at))];
      }
      r := Success(());
    }

    method UpdateConfirmations(outpoint: BtqOutpoint, depth: u32, engine: Engine) returns (r: Outcome<()>)
      modifies this`rows
      ensures State() == SqlTry(old(State()), Op.UpdateConfirmations(outpoint, depth), engine)
      ensures r == SqlAnswer(Op.UpdateConfirmations(outpoint, depth), engine)
    {
      if !engine.rows {
        return Failure(Persistence);
      }
      var k := Key(outpoint);
      if k in rows {
        rows := rows[k := rows[k].(spendingConfs := depth)];
      }
      r := Success(());
    }

    /** The borrowing read of the trait cannot be served from rows and always answers "nothing". */
    method Get(outpoint: BtqOutpoint) returns (r: Option<IndexedOutpoint>)
      ensures r == None
    {
      r := None;
    }

    /** The owned read: only preparing the query can fail, a query that fails is an absent row. */
    method ReadOwned(outpoint: BtqOutpoint, prepared: bool, queried: bool)
        returns (r: Outcome<Option<IndexedOutpoint>>)
      ensures r == if !prepared then Failure(Persistence)
                   else Success(if queried then GetOwned(State(), outpoint) else None)
    {
      if !prepared {
        return Failure(Persistence);
      }
      var k := Key(outpoint);
      if !queried || k !in rows {
        return Success(None);
      }
      var found := rows[k];
      var value := found.value;
      if found.spk.None? {
        return Success(None);
      }
      var spk := found.spk.value;
      var spent := found.spent;
      var output := BtqTxOut(outpoint, I64AsU64(value), spk, spent != 0);
      r := Success(Some(IndexedOutpoint(Some(output), found.spendingTxid, I64AsU32(found.spendingConfs))));
    }

    method Rollback(toHeight: u32, engine: Engine) returns (r: Outcome<()>)
      modifies this
      ensures State() == SqlTry(old(State()), Op.Rollback(toHeight), engine)
      ensures r == SqlAnswer(Op.Rollback(toHeight), engine)
    {
      if !engine.rows {
        return Failure(Persistence);
      }
      rows := UpdateWhere(rows, (r: Row) => SqlGreater(r.spendHeight, toHeight), RollbackRow);
      height := toHeight;
      r := PutMeta(height, tipHash, engine);
    }

    method RescanFrom(fromHeight: u32, engine: Engine) returns (r: Outcome<()>)
      modifies this`rows
      ensures State() == SqlTry(old(State()), Op.RescanFrom(fromHeight), engine)
      ensures r == SqlAnswer(Op.RescanFrom(fromHeight), engine)
    {
      if !engine.rows {
        return Failure(Persistence);
      }
      rows := UpdateWhere(rows, (r: Row) => SqlAtLeast(r.spendHeight, fromHeight),
                          (r: Row) => r.(spendingConfs := 0));
      r := Success(());
    }

    method SetTip(tip: ChainTip, engine: Engine)
      modifies this
      ensures State() == SqlTry(old(State()), Op.SetTip(tip), engine)
    {
      height := tip.height;
      tipHash := tip.hash;
      var _ := PutMeta(tip.height, tip.hash, engine);
    }

    method PutMeta(height: u32, tip: string, engine: Engine) returns (r: Outcome<()>)
      modifies this`meta
      ensures meta == TryMeta(old(meta), height, tip, engine)
      ensures r == if engine.height && engine.tip then Success(()) else Failure(Persistence)
    {
      if !engine.height {
        return Failure(Persistence);
      }
      meta := meta["height" := Decimal(height)];
      if !engine.tip {
        return Failure(Persistence);
      }
      meta := meta["tip" := tip];
      r := Success(());
    }
  }

  // ----- simulation ----------------------------------------------------

  /** A row says what an entry says. */
  predicate SameFacts(e: Entry, r: Row) {
    && r.spendingTxid == e.view.spendingTxid
    && r.spendingConfs == e.view.spendingConfirmations
    && r.spendHeight == e.spendHeight
    && match e.view.output
       case None => r.spk.None?
       case Some(out) =>
         r.spk == Some(out.scriptPubkey) && r.value == U64AsI64(out.value) && r.spent == BoolAsI64(out.spent)
  }

  predicate Simulates(m: MemState, s: SqlState) {
    && m.height == s.height && m.tipHash == s.tipHash
    && m.entries.Keys == s.rows.Keys
    && forall k :: k in m.entries ==> SameFacts(m.entries[k], s.rows[k])
  }

  /** Height and tip survive closing and reopening the database. */
  predicate Durable(s: SqlState) {
    Open(s.rows, s.meta) == s
  }

  predicate NamesOutpoint(op: Op) {
    op.RecordOutput? || op.RecordSpend? || op.UpdateConfirmations?
  }

  /** The operation is a watch, names no outpoint, or names a tracked one. */
  predicate OnTracked(m: MemState, op: Op) {
    NamesOutpoint(op) ==> Key(op.outpoint) in m.entries
  }

  lemma StepOnTracked(m: MemState, s: SqlState, op: Op)
    requires Simulates(m, s) && NamesOutpoint(op) && Key(op.outpoint) in m.entries
    ensures Simulates(MemStep(m, op), SqlStep(s, op))
  {
    var m', s', k := MemStep(m, op), SqlStep(s, op), Key(op.outpoint);
    assert SameFacts(m'.entries[k], s'.rows[k]);
    assert m'.entries.Keys == m.entries.Keys && s'.rows.Keys == s.rows.Keys;
    forall j | j in m'.entries
      ensures SameFacts(m'.entries[j], s'.rows[j])
    {
      assert j != k ==> m'.entries[j] == m.entries[j] && s'.rows[j] == s.rows[j];
    }
  }

  lemma StepOnUntracked(m: MemState, s: SqlState, op: Op)
    requires Simulates(m, s) && NamesOutpoint(op) && Key(op.outpoint) !in m.entries
    ensures !Simulates(MemStep(m, op), SqlStep(s, op))
  {
    assert Key(op.outpoint) in MemStep(m, op).entries.Keys;
    assert Key(op.outpoint) !in s.rows.Keys && SqlStep(s, op).rows == s.rows;
  }

  lemma StepWatch(m: MemState, s: SqlState, op: Op)
    requires Simulates(m, s) && op.Watch?
    ensures Simulates(MemStep(m, op), SqlStep(s, op))
  {
    var m', s', k := MemStep(m, op), SqlStep(s, op), Key(op.outpoint);
    assert m'.entries.Keys == m.entries.Keys + {k} && s'.rows.Keys == s.rows.Keys + {k};
    assert SameFacts(m'.entries[k], s'.rows[k]);
    forall j | j in m'.entries
      ensures SameFacts(m'.entries[j], s'.rows[j])
    {
      assert j != k ==> m'.entries[j] == m.entries[j] && s'.rows[j] == s.rows[j];
    }
  }

  lemma StepEverywhere(m: MemState, s: SqlState, op: Op)
    requires Simulates(m, s) && (op.Rollback? || op.RescanFrom? || op.SetTip?)
    ensures Simulates(MemStep(m, op), SqlStep(s, op))
  {
    var m', s' := MemStep(m, op), SqlStep(s, op);
    assert m'.entries.Keys == m.entries.Keys && s'.rows.Keys == s.rows.Keys;
    forall j | j in m'.entries
      ensures SameFacts(m'.entries[j], s'.rows[j])
    {
      assert SameFacts(m.entries[j], s.rows[j]);
    }
  }

  /** One operation on two indexers that agree leaves them in agreement exactly when it names a tracked
      outpoint: on an untracked one the map grows an entry where the UPDATE finds no row. */
  lemma StepSimulation(m: MemState, s: SqlState, op: Op)
    requires Simulates(m, s)
    ensures Simulates(MemStep(m, op), SqlStep(s, op)) <==> OnTracked(m, op)
  {
    if NamesOutpoint(op) {
      if Key(op.outpoint) in m.entries {
        StepOnTracked(m, s, op);
      } else {
        StepOnUntracked(m, s, op);
      }
    } else if op.Watch? {
      StepWatch(m, s, op);
    } else {
      StepEverywhere(m, s, op);
    }
  }

  /** The call leaves what `meta` needs: it writes every part of the tip that it changes. */
  predicate WritesTip(s: SqlState, op: Op, engine: Engine) {
    match op
    case Rollback(h) => engine.rows ==> engine.height || h == s.height
    case SetTip(tip) => (engine.height || tip.height == s.height) &&
                        ((engine.height && engine.tip) || tip.hash == s.tipHash)
    case _ => true
  }

  /** Reopening after one more call restores height and tip exactly when every part that changed was written,
      whatever the call returned: a rollback that fails on the tip is safe, a `set_tip` that fails is not. */
  lemma StepDurable(s: SqlState, op: Op, engine: Engine)
    requires Durable(s)
    ensures Durable(SqlTry(s, op, engine)) <==> WritesTip(s, op, engine)
  {
    assert "height"[0] != "tip"[0];
    if op.Rollback? {
      MetaRoundTrip(s.meta, op.toHeight, s.tipHash);
    } else if op.SetTip? {
      MetaRoundTrip(s.meta, op.tip.height, op.tip.hash);
    }
  }

  const EMPTY_SQL := Open(map[], map[])

  function SqlRun(ops: seq<Op>): SqlState {
    if ops == [] then EMPTY_SQL else SqlStep(SqlRun(ops[..|ops| - 1]), ops[|ops| - 1])
  }

  /** Every outpoint is watched before any other operation names it. */
  predicate WatchedFirst(ops: seq<Op>) {
    forall i :: 0 <= i < |ops| && NamesOutpoint(ops[i]) ==>
      exists j :: 0 <= j < i && ops[j] == Watch(ops[i].outpoint)
  }

  lemma {:induction false} RunDurable(ops: seq<Op>)
    ensures Durable(SqlRun(ops))
  {
    if ops != [] {
      RunDurable(ops[..|ops| - 1]);
      StepDurable(SqlRun(ops[..|ops| - 1]), ops[|ops| - 1], NO_FAILURE);
    }
  }

  /** Under the discipline a tracked outpoint is one that was watched. */
  lemma {:induction false} TrackedWasWatched(ops: seq<Op>, o: BtqOutpoint)
    requires WatchedFirst(ops)
    ensures Key(o) in MemRun(ops).entries <==> exists j :: 0 <= j < |ops| && ops[j] == Watch(o)
  {
    RunInvariant(ops);
    if Key(o) in MemRun(ops).entries {
      var i :| 0 <= i < |ops| && Touches(ops[i], o);
      assert ops[i] == Watch(o) || exists j :: 0 <= j < i && ops[j] == Watch(ops[i].outpoint);
    }
    if j :| 0 <= j < |ops| && ops[j] == Watch(o) {
      assert Touches(ops[j], o);
    }
  }

  lemma WatchedFirstPrefix(ops: seq<Op>, n: nat)
    requires n <= |ops| && WatchedFirst(ops)
    ensures WatchedFirst(ops[..n])
  {
    forall i | 0 <= i < n && NamesOutpoint(ops[i])
      ensures exists j :: 0 <= j < i && ops[..n][j] == Watch(ops[i].outpoint)
    {
      var j :| 0 <= j < i && ops[j] == Watch(ops[i].outpoint);
      assert ops[..n][j] == Watch(ops[i].outpoint);
    }
  }

  lemma {:induction false} DisciplinedRun(ops: seq<Op>)
    requires WatchedFirst(ops)
    ensures Simulates(MemRun(ops), SqlRun(ops))
  {
    if ops != [] {
      var n := |ops| - 1;
      WatchedFirstPrefix(ops, n);
      DisciplinedRun(ops[..n]);
      StepSimulation(MemRun(ops[..n]), SqlRun(ops[..n]), ops[n]);
      if NamesOutpoint(ops[n]) {
        TrackedWasWatched(ops[..n], ops[n].outpoint);
        var j :| 0 <= j < n && ops[j] == Watch(ops[n].outpoint);
        assert ops[..n][j] == Watch(ops[n].outpoint);
      }
    }
  }

  /** Over whole runs: the two indexers agree after every operation exactly when every outpoint is watched
      before any other operation names it. */
  lemma {:induction false} RunSimulation(ops: seq<Op>)
    ensures (forall n :: 0 <= n <= |ops| ==> Simulates(MemRun(ops[..n]), SqlRun(ops[..n]))) <==> WatchedFirst(ops)
  {
    if WatchedFirst(ops) {
      forall n | 0 <= n <= |ops|
        ensures Simulates(MemRun(ops[..n]), SqlRun(ops[..n]))
      {
        WatchedFirstPrefix(ops, n);
        DisciplinedRun(ops[..n]);
      }
    } else {
      var n := FirstViolation(ops);
      DisciplinedRun(ops[..n]);
      TrackedWasWatched(ops[..n], ops[n].outpoint);
      assert forall j :: 0 <= j < n ==> ops[..n][j] == ops[j];
      StepSimulation(MemRun(ops[..n]), SqlRun(ops[..n]), ops[n]);
      assert ops[..n + 1][..n] == ops[..n];
      assert !Simulates(MemRun(ops[..n + 1]), SqlRun(ops[..n + 1]));
    }
  }

  lemma {:induction false} FirstViolation(ops: seq<Op>) returns (n: nat)
    requires !WatchedFirst(ops)
    ensures n < |ops| && WatchedFirst(ops[..n])
    ensures NamesOutpoint(ops[n])
    ensures forall j :: 0 <= j < n ==> ops[j] != Watch(ops[n].outpoint)
  {
    var last := |ops| - 1;
    if WatchedFirst(ops[..last]) {
      n := last;
      forall i | 0 <= i < last && NamesOutpoint(ops[i])
        ensures exists j :: 0 <= j < i && ops[j] == Watch(ops[i].outpoint)
      {
        assert ops[..last][i] == ops[i];
        var j :| 0 <= j < i && ops[..last][j] == Watch(ops[..last][i].outpoint);
        assert ops[j] == Watch(ops[i].outpoint);
      }
    } else {
      n := FirstViolation(ops[..last]);
      assert ops[..last][..n] == ops[..n];
      assert forall j :: 0 <= j <= n ==> ops[..last][j] == ops[j];
    }
  }

  // ----- failing runs --------------------------------------------------

  datatype Call = Call(op: Op, engine: Engine)

  function SqlTryRun(calls: seq<Call>): SqlState {
    if calls == [] then EMPTY_SQL
    else
      var n := |calls| - 1;
      SqlTry(SqlTryRun(calls[..n]), calls[n].op, calls[n].engine)
  }

  /** The operations that took effect: those whose statement on the rows ran, and every `set_tip`. */
  function Effective(calls: seq<Call>): seq<Op> {
    if calls == [] then []
    else
      var n := |calls| - 1;
      Effective(calls[..n]) + if calls[n].op.SetTip? || calls[n].engine.rows then [calls[n].op] else []
  }

  /** The height a reopened database answers: that of the last call that wrote one. */
  function StoredHeight(calls: seq<Call>): u32 {
    if calls == [] then 0
    else
      var n := |calls| - 1;
      var e := calls[n].engine;
      match calls[n].op
      case SetTip(tip) => if e.height then tip.height else StoredHeight(calls[..n])
      case Rollback(h) => if e.rows && e.height then h else StoredHeight(calls[..n])
      case _ => StoredHeight(calls[..n])
  }

  /** The tip hash a reopened database answers: a rollback writes out the hash it keeps. */
  function StoredTip(calls: seq<Call>): string {
    if calls == [] then ""
    else
      var n := |calls| - 1;
      var e := calls[n].engine;
      if !e.height || !e.tip then StoredTip(calls[..n])
      else
        match calls[n].op
        case SetTip(tip) => tip.hash
        case Rollback(_) => if e.rows then TipAfter(Effective(calls[..n])) else StoredTip(calls[..n])
        case _ => StoredTip(calls[..n])
  }

  lemma StepIgnoresMeta(s: SqlState, s': SqlState, op: Op)
    requires s == s'.(meta := s.meta)
    ensures SqlStep(s, op) == SqlStep(s', op).(meta := SqlStep(s, op).meta)
  {
  }

  /** Failures only drop operations: whatever the engine does, rows, height and tip are those of the run of the
      effective operations on an engine that never fails. */
  lemma {:induction false} FailuresOnlyDrop(calls: seq<Call>)
    ensures SqlTryRun(calls) == SqlRun(Effective(calls)).(meta := SqlTryRun(calls).meta)
  {
    if calls != [] {
      var n := |calls| - 1;
      var before, done := SqlTryRun(calls[..n]), Effective(calls[..n]);
      FailuresOnlyDrop(calls[..n]);
      if calls[n].op.SetTip? || calls[n].engine.rows {
        assert (done + [calls[n].op])[..|done|] == done;
        StepIgnoresMeta(before, SqlRun(done), calls[n].op);
      } else {
        assert Effective(calls) == done;
      }
    }
  }

  /** After the first n calls the database agrees with the in-memory run of the effective operations. */
  predicate AgreesAfter(calls: seq<Call>, n: nat)
    requires n <= |calls|
  {
    Simulates(MemRun(Effective(calls[..n])), SqlTryRun(calls[..n]))
  }

  lemma AgreesAsNoFailure(calls: seq<Call>, n: nat, ops: seq<Op>)
    requires n <= |calls| && ops == Effective(calls[..n])
    ensures AgreesAfter(calls, n) <==> Simulates(MemRun(ops), SqlRun(ops))
  {
    FailuresOnlyDrop(calls[..n]);
  }

  /** Over whole runs with failures: the database agrees with the in-memory run of the effective operations
      throughout exactly when each outpoint's watch took effect before any other operation on it did. */
  lemma FailingSimulation(calls: seq<Call>)
    ensures (forall n :: 0 <= n <= |calls| ==> AgreesAfter(calls, n)) <==> WatchedFirst(Effective(calls))
  {
    var ops := Effective(calls);
    if WatchedFirst(ops) {
      forall n | 0 <= n <= |calls|
        ensures AgreesAfter(calls, n)
      {
        var done := Effective(calls[..n]);
        EffectivePrefix(calls, n);
        WatchedFirstPrefix(ops, |done|);
        DisciplinedRun(done);
        AgreesAsNoFailure(calls, n, done);
      }
    }
    if forall n :: 0 <= n <= |calls| ==> AgreesAfter(calls, n) {
      forall m | 0 <= m <= |ops|
        ensures Simulates(MemRun(ops[..m]), SqlRun(ops[..m]))
      {
        var n := ReachedAfter(calls, m);
        AgreesAsNoFailure(calls, n, ops[..m]);
      }
      RunSimulation(ops);
    }
  }

  lemma {:induction false} EffectivePrefix(calls: seq<Call>, n: nat)
    requires n <= |calls|
    ensures Effective(calls[..n]) <= Effective(calls)
  {
    if n == |calls| {
      assert calls[..n] == calls;
    } else {
      var last := |calls| - 1;
      EffectivePrefix(calls[..last], n);
      assert calls[..last][..n] == calls[..n];
    }
  }

  /** Every prefix of the effective operations is what some prefix of the calls did. */
  lemma {:induction false} ReachedAfter(calls: seq<Call>, m: nat) returns (n: nat)
    requires m <= |Effective(calls)|
    ensures n <= |calls| && Effective(calls[..n]) == Effective(calls)[..m]
  {
    if m == |Effective(calls)| {
      n := |calls|;
      assert calls[..n] == calls;
    } else {
      var last := |calls| - 1;
      n := ReachedAfter(calls[..last], m);
      assert calls[..last][..n] == calls[..n];
    }
  }

  lemma {:induction false} TipOfRun(ops: seq<Op>)
    ensures SqlRun(ops).tipHash == TipAfter(ops) && SqlRun(ops).height == HeightAfter(ops)
  {
    if ops != [] {
      TipOfRun(ops[..|ops| - 1]);
    }
  }

  /** Reopening after any run, failures included, answers the stored height and tip; so it restores the state
      exactly when the last height and tip that took effect are the last that were written. */
  lemma {:induction false} Reopened(calls: seq<Call>)
    ensures ReadMeta(SqlTryRun(calls).meta) == (StoredHeight(calls), StoredTip(calls))
    ensures Durable(SqlTryRun(calls)) <==>
              StoredHeight(calls) == HeightAfter(Effective(calls)) && StoredTip(calls) == TipAfter(Effective(calls))
  {
    FailuresOnlyDrop(calls);
    TipOfRun(Effective(calls));
    if calls != [] {
      var n := |calls| - 1;
      var op := calls[n].op;
      Reopened(calls[..n]);
      FailuresOnlyDrop(calls[..n]);
      TipOfRun(Effective(calls[..n]));
      MetaWritten(SqlTryRun(calls[..n]), op, calls[n].engine);
    }
  }

  /** What one call leaves to be read back from `meta`. */
  lemma MetaWritten(s: SqlState, op: Op, engine: Engine)
    ensures var after, before := ReadMeta(SqlTry(s, op, engine).meta), ReadMeta(s.meta);
      var wrote := op.SetTip? || (op.Rollback? && engine.rows);
      && after.0 == (if wrote && engine.height then SqlStep(s, op).height else before.0)
      && after.1 == if wrote && engine.height && engine.tip then SqlStep(s, op).tipHash else before.1
  {
    assert "height"[0] != "tip"[0];
    if op.Rollback? {
      DecimalRoundTrip(op.toHeight);
    } else if op.SetTip? {
      DecimalRoundTrip(op.tip.height);
    }
  }

  /** Every row is stored under the key its own columns spell. */
  predicate RowsKeyed(rows: Table) {
    forall k :: k in rows ==>
      |rows[k].txid| == 64 && rows[k].vout >= 0 && k == rows[k].txid + ":" + Decimal(rows[k].vout)
  }

  lemma StepRowsKeyed(s: SqlState, op: Op)
    requires RowsKeyed(s.rows)
    ensures RowsKeyed(SqlStep(s, op).rows)
  {
  }

  lemma {:induction false} RunRowsKeyed(calls: seq<Call>)
    ensures RowsKeyed(SqlTryRun(calls).rows)
  {
    if calls != [] {
      var n := |calls| - 1;
      RunRowsKeyed(calls[..n]);
      StepRowsKeyed(SqlTryRun(calls[..n]), calls[n].op);
    }
  }

  /** On indexers that agree, an outpoint reads as what the map says, with the output under the outpoint that was
      asked for; without a recorded output it reads as absent. */
  lemma OwnedReadExact(m: MemState, s: SqlState, o: BtqOutpoint)
    requires Simulates(m, s)
    ensures GetOwned(s, o) ==
      match MemGet(m, o)
      case None => None
      case Some(view) =>
        if view.output.None? then None
        else Some(view.(output := Some(view.output.value.(outpoint := o))))
  {
    if Key(o) in m.entries {
      assert SameFacts(m.entries[Key(o)], s.rows[Key(o)]);
    }
  }

  /** On indexers that agree, the owned read is the in-memory read exactly for outpoints neither tracks and
      for outpoints whose last recorded output names that very outpoint. */
  lemma ReadsAgree(m: MemState, s: SqlState, o: BtqOutpoint)
    requires Simulates(m, s)
    ensures GetOwned(s, o) == MemGet(m, o) <==>
              (Key(o) in m.entries ==>
                var output := m.entries[Key(o)].view.output;
                output.Some? && output.value.outpoint == o)
  {
    if Key(o) in m.entries {
      assert SameFacts(m.entries[Key(o)], s.rows[Key(o)]);
    }
  }

  /** Over whole runs: on a watched-first run the owned read is the in-memory read exactly for outpoints never
      watched and for those whose last recorded output names them. The borrowing read, which answers nothing,
      is right exactly for the former. */
  lemma RunReads(ops: seq<Op>, o: BtqOutpoint)
    requires WatchedFirst(ops)
    ensures GetOwned(SqlRun(ops), o) == MemGet(MemRun(ops), o) <==>
              Watch(o) !in ops
              || var output := LastOutput(ops, o, |ops|); output.Some? && output.value.outpoint == o
    ensures MemGet(MemRun(ops), o) == None <==> Watch(o) !in ops
  {
    DisciplinedRun(ops);
    TrackedWasWatched(ops, o);
    ReadsAgree(MemRun(ops), SqlRun(ops), o);
    ViewMeaning(ops, o, |ops|);
    assert ops[..|ops|] == ops;
  }

  /** The same on an engine that may fail, for the operations that took effect. */
  lemma FailingReads(calls: seq<Call>, o: BtqOutpoint)
    requires WatchedFirst(Effective(calls))
    ensures var ops := Effective(calls);
      GetOwned(SqlTryRun(calls), o) == MemGet(MemRun(ops), o) <==>
        Watch(o) !in ops || var output := LastOutput(ops, o, |ops|); output.Some? && output.value.outpoint == o
  {
    FailuresOnlyDrop(calls);
    RunReads(Effective(calls), o);
  }
}
