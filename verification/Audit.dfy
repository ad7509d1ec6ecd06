/** internal/audit/writer.go and verify.go: the hash-chained log. A digest is a value of an abstract type, the hash an
    abstract function of the bytes hashed. */
module Audit {
  import opened Options

  /** An entry with its timestamp resolved and its payload in canonical form. */
  datatype Entry = Entry(nanos: int, eventType: string, actor: Option<string>, resourceType: string, resourceId: string,
                         payload: string)

  /** A SHA-256 value; nothing but equality of digests is used. */
  datatype Digest = Digest(bytes: string)

  /** The hashed fields of a row: the timestamp, and everything behind it as one run of bytes. */
  datatype Body = Body(nanos: int, tail: string)

  /** The fields behind the timestamp are joined without lengths. */
  function BodyOf(e: Entry): Body {
    Body(e.nanos, e.eventType + (if e.actor.Some? then e.actor.value else "") + e.resourceType + e.resourceId
      + e.payload)
  }

  /** What is hashed. Sequence number and timestamp take eight bytes each and the digest its own fixed length, so the
      parts can be told apart. */
  datatype Preimage = Preimage(seq_: int, prev: Digest, body: Body)

  /** An audit_log row; id is the seq column, which the database draws from a sequence of its own. */
  datatype Row = Row(id: int, prev: Digest, self_: Digest, body: Body)

  datatype Sentinel = Sentinel(seq_: int, hash: Digest)

  /** The transaction that holds the sentinel's row lock: its uncommitted rows, its view of the sentinel, and whether
      it stands between insert and update. */
  datatype Writer = Writer(tx: int, pending: seq<Row>, view: Sentinel, inserted: bool)

  datatype State = State(rows: seq<Row>, sentinel: Sentinel, nextId: int, writer: Option<Writer>)

  datatype Step =
    | Lock(tx: int)
    | Insert(tx: int, entry: Entry)
    | Advance(tx: int)
    | Commit(tx: int)
    | Rollback(tx: int)

  predicate Holds(s: State, tx: int) {
    s.writer.Some? && s.writer.value.tx == tx
  }

  /** The row an insert writes under this view of the sentinel. */
  function NextRow(h: Preimage -> Digest, nextId: int, view: Sentinel, e: Entry): Row {
    Row(nextId, view.hash, h(Preimage(view.seq_ + 1, view.hash, BodyOf(e))), BodyOf(e))
  }

  /** A step that is not enabled changes nothing: a lock request waits, and statements of one transaction come in
      order. An id drawn by an insert stays drawn when the transaction rolls back. */
  function Do(h: Preimage -> Digest, s: State, step: Step): State {
    match step
    case Lock(tx) =>
      if s.writer.None? then s.(writer := Some(Writer(tx, [], s.sentinel, false))) else s
    case Insert(tx, e) =>
      if Holds(s, tx) && !s.writer.value.inserted then
        var w := s.writer.value;
        var row := NextRow(h, s.nextId, w.view, e);
        s.(nextId := s.nextId + 1, writer := Some(w.(pending := w.pending + [row], inserted := true)))
      else s
    case Advance(tx) =>
      if Holds(s, tx) && s.writer.value.inserted && s.writer.value.pending != [] then
        var w := s.writer.value;
        s.(writer := Some(w.(view := Sentinel(w.view.seq_ + 1, w.pending[|w.pending| - 1].self_), inserted := false)))
      else s
    case Commit(tx) =>
      if Holds(s, tx) && !s.writer.value.inserted then
        s.(rows := s.rows + s.writer.value.pending, sentinel := s.writer.value.view, writer := None)
      else s
    case Rollback(tx) =>
      if Holds(s, tx) then s.(writer := None) else s
  }

  function DoAll(h: Preimage -> Digest, s: State, steps: seq<Step>): State
    decreases |steps|
  {
    if |steps| == 0 then s else Do(h, DoAll(h, s, steps[..|steps| - 1]), steps[|steps| - 1])
  }

  /** While a transaction holds the lock the others' steps change nothing; without a holder a lock request alone
      changes anything. No step but a commit changes the rows or the sentinel. */
  lemma OnlyHolderActs(h: Preimage -> Digest, s: State, step: Step)
    ensures s.writer.Some? && s.writer.value.tx != step.tx ==> Do(h, s, step) == s
    ensures s.writer.None? && !step.Lock? ==> Do(h, s, step) == s
    ensures !step.Commit? ==> Do(h, s, step).rows == s.rows && Do(h, s, step).sentinel == s.sentinel
  {}

  function Fresh(genesis: Digest): State {
    State([], Sentinel(0, genesis), 1, None)
  }

  // ----- The chain -----

  function PrevOf(genesis: Digest, rows: seq<Row>, i: nat): Digest
    requires i <= |rows|
  {
    if i == 0 then genesis else rows[i - 1].self_
  }

  /** Row i carries hashed sequence number i + 1 and the digest of the row before it. */
  ghost predicate Linked(h: Preimage -> Digest, genesis: Digest, rows: seq<Row>, i: nat)
    requires i < |rows|
  {
    && rows[i].prev == PrevOf(genesis, rows, i)
    && rows[i].self_ == h(Preimage(i + 1, rows[i].prev, rows[i].body))
  }

  ghost predicate IsChain(h: Preimage -> Digest, genesis: Digest, rows: seq<Row>) {
    forall i | 0 <= i < |rows| :: Linked(h, genesis, rows, i)
  }

  ghost predicate IdsBelow(rows: seq<Row>, nextId: int) {
    && (forall i | 0 <= i < |rows| :: i + 1 <= rows[i].id < nextId)
    && forall i, j | 0 <= i < j < |rows| :: rows[i].id < rows[j].id
  }

  ghost predicate HeadIs(genesis: Digest, rows: seq<Row>, sentinel: Sentinel) {
    sentinel == Sentinel(|rows|, PrevOf(genesis, rows, |rows|))
  }

  /** The rows as the lock holder sees them, and the sentinel as it leaves it. */
  ghost predicate WriterInv(h: Preimage -> Digest, genesis: Digest, rows: seq<Row>, nextId: int, w: Writer) {
    var all := rows + w.pending;
    && IsChain(h, genesis, all)
    && IdsBelow(all, nextId)
    && (w.inserted ==> w.pending != [])
    && HeadIs(genesis, if w.inserted then all[..|all| - 1] else all, w.view)
  }

  ghost predicate Inv(h: Preimage -> Digest, genesis: Digest, s: State) {
    && IsChain(h, genesis, s.rows)
    && IdsBelow(s.rows, s.nextId) && |s.rows| < s.nextId
    && HeadIs(genesis, s.rows, s.sentinel)
    && (s.writer.Some? ==> WriterInv(h, genesis, s.rows, s.nextId, s.writer.value)
                           && |s.rows| + |s.writer.value.pending| < s.nextId)
  }

  lemma ExtendChain(h: Preimage -> Digest, genesis: Digest, rows: seq<Row>, row: Row, nextId: int)
    requires IsChain(h, genesis, rows) && IdsBelow(rows, nextId) && |rows| < nextId
    requires row.id == nextId && row.prev == PrevOf(genesis, rows, |rows|)
    requires row.self_ == h(Preimage(|rows| + 1, row.prev, row.body))
    ensures IsChain(h, genesis, rows + [row]) && IdsBelow(rows + [row], nextId + 1)
  {
    var all := rows + [row];
    forall i | 0 <= i < |all|
      ensures Linked(h, genesis, all, i)
    {
      if i < |rows| {
        assert Linked(h, genesis, rows, i);
        assert PrevOf(genesis, all, i) == PrevOf(genesis, rows, i);
      }
    }
  }

  lemma PrefixIsChain(h: Preimage -> Digest, genesis: Digest, rows: seq<Row>, n: nat)
    requires IsChain(h, genesis, rows) && n <= |rows|
    ensures IsChain(h, genesis, rows[..n])
  {
    forall i | 0 <= i < n
      ensures Linked(h, genesis, rows[..n], i)
    {
      assert Linked(h, genesis, rows, i);
      assert PrevOf(genesis, rows[..n], i) == PrevOf(genesis, rows, i);
    }
  }

  lemma InsertKeepsInv(h: Preimage -> Digest, genesis: Digest, s: State, tx: int, e: Entry)
    requires Inv(h, genesis, s)
    ensures Inv(h, genesis, Do(h, s, Insert(tx, e)))
  {
    if Holds(s, tx) && !s.writer.value.inserted {
      var w := s.writer.value;
      var all := s.rows + w.pending;
      var row := NextRow(h, s.nextId, w.view, e);
      ExtendChain(h, genesis, all, row, s.nextId);
      assert s.rows + (w.pending + [row]) == all + [row];
      assert (all + [row])[..|all|] == all;
    }
  }

  lemma StepKeepsInv(h: Preimage -> Digest, genesis: Digest, s: State, step: Step)
    requires Inv(h, genesis, s)
    ensures Inv(h, genesis, Do(h, s, step))
  {
    match step
    case Lock(_) => assert s.rows + [] == s.rows;
    case Insert(tx, e) => InsertKeepsInv(h, genesis, s, tx, e);
    case Advance(_) =>
    case Commit(_) =>
    case Rollback(_) =>
  }

  /** Whatever transactions begin, fail and commit in whatever order, the committed rows are one chain from the
      genesis digest, ids grow, and the sentinel is its head. */
  lemma {:induction false} EveryRunIsAChain(h: Preimage -> Digest, genesis: Digest, steps: seq<Step>)
    ensures Inv(h, genesis, DoAll(h, Fresh(genesis), steps))
    decreases |steps|
  {
    if |steps| > 0 {
      EveryRunIsAChain(h, genesis, steps[..|steps| - 1]);
      StepKeepsInv(h, genesis, DoAll(h, Fresh(genesis), steps[..|steps| - 1]), steps[|steps| - 1]);
    }
  }

  ghost predicate Injective(h: Preimage -> Digest) {
    forall x, y :: h(x) == h(y) ==> x == y
  }

  /** The head pins the log down: two non-empty chains with one head have one length and agree in the hashed encoding
      of every row. */
  lemma {:induction false} HeadDeterminesRows(h: Preimage -> Digest, g1: Digest, g2: Digest, a: seq<Row>, b: seq<Row>)
    requires Injective(h) && IsChain(h, g1, a) && IsChain(h, g2, b)
    requires |a| > 0 && |b| > 0 && a[|a| - 1].self_ == b[|b| - 1].self_
    ensures |a| == |b|
    ensures forall i | 0 <= i < |a| :: a[i].prev == b[i].prev && a[i].self_ == b[i].self_ && a[i].body == b[i].body
    decreases |a|
  {
    var x, y := a[|a| - 1], b[|b| - 1];
    var px := Preimage(|a|, x.prev, x.body);
    var py := Preimage(|b|, y.prev, y.body);
    assert Linked(h, g1, a, |a| - 1) && Linked(h, g2, b, |b| - 1);
    assert h(px) == x.self_ == y.self_ == h(py);
    assert px == py;
    if |a| > 1 {
      var c, d := a[..|a| - 1], b[..|b| - 1];
      PrefixIsChain(h, g1, a, |a| - 1);
      PrefixIsChain(h, g2, b, |b| - 1);
      assert c[|c| - 1].self_ == x.prev == y.prev == d[|d| - 1].self_;
      HeadDeterminesRows(h, g1, g2, c, d);
      forall i | 0 <= i < |a|
        ensures a[i].prev == b[i].prev && a[i].self_ == b[i].self_ && a[i].body == b[i].body
      {
        if i < |a| - 1 { assert c[i] == a[i] && d[i] == b[i]; }
      }
    }
  }

  // ----- The writer -----

  class Connection {
    const h: Preimage -> Digest
    const tx: int
    var state: State

    constructor (h: Preimage -> Digest, tx: int, s: State)
      ensures this.h == h && this.tx == tx && state == s
    {
      this.h, this.tx, state := h, tx, s;
    }

    /** computeSelfHash */
    method ComputeSelfHash(seq_: int, prev: Digest, e: Entry) returns (digest: Digest)
      ensures digest == h(Preimage(seq_, prev, BodyOf(e)))
    {
      var tail := e.eventType;
      if e.actor.Some? {
        tail := tail + e.actor.value;
      }
      tail := tail + e.resourceType;
      tail := tail + e.resourceId;
      tail := tail + e.payload;
      assert Body(e.nanos, tail) == BodyOf(e);
      digest := h(Preimage(seq_, prev, Body(e.nanos, tail)));
    }

    /** WriteEntry, in a transaction that has the lock or takes it now. It is the steps Lock, Insert, Advance, and
        returns the hashed sequence number, not the row's id. */
    method WriteEntry(e: Entry) returns (seq_: int)
      requires state.writer.Some? ==> state.writer.value.tx == tx && !state.writer.value.inserted
      modifies this`state
      ensures state == DoAll(h, old(state), [Lock(tx), Insert(tx, e), Advance(tx)])
      ensures Holds(state, tx) && !state.writer.value.inserted && state.writer.value.view.seq_ == seq_
      ensures state.rows == old(state.rows) && state.sentinel == old(state.sentinel)
    {
      ghost var s0 := state;
      if state.writer.None? {
        state := state.(writer := Some(Writer(tx, [], state.sentinel, false)));
      }
      var w := state.writer.value;
      seq_ := w.view.seq_ + 1;
      var selfHash := ComputeSelfHash(seq_, w.view.hash, e);
      var pending := w.pending + [Row(state.nextId, w.view.hash, selfHash, BodyOf(e))];
      state := state.(nextId := state.nextId + 1, writer := Some(Writer(tx, pending, Sentinel(seq_, selfHash), false)));
      ThreeSteps(h, s0, Lock(tx), Insert(tx, e), Advance(tx));
    }
  }

  lemma ThreeSteps(h: Preimage -> Digest, s: State, a: Step, b: Step, c: Step)
    ensures DoAll(h, s, [a, b, c]) == Do(h, Do(h, Do(h, s, a), b), c)
  {
    var steps := [a, b, c];
    assert steps[..2] == [a, b] && [a, b][..1] == [a] && [a][..0] == [];
    assert DoAll(h, s, [a]) == Do(h, DoAll(h, s, []), a);
    assert DoAll(h, s, [a, b]) == Do(h, DoAll(h, s, [a]), b);
    assert DoAll(h, s, steps) == Do(h, DoAll(h, s, [a, b]), c);
  }

  // ----- Verify -----

  datatype Failure = NoPreviousRow | Discontinuity

  datatype Outcome = Accepted(scanned: int, from: int, to: int) | Mismatch(seq_: int, scanned: int)
                     | Failed(reason: Failure)

  /** The rows whose id lies in from..to, in id order. */
  function InRange(rows: seq<Row>, from: int, to: int): seq<Row>
    decreases |rows|
  {
    if |rows| == 0 then []
    else
      var front, last := InRange(rows[..|rows| - 1], from, to), rows[|rows| - 1];
      if from <= last.id <= to then front + [last] else front
  }

  /** self_hash of the row with this id. */
  function HashAt(rows: seq<Row>, id: int): Option<Digest>
    decreases |rows|
  {
    if |rows| == 0 then None
    else if rows[|rows| - 1].id == id then Some(rows[|rows| - 1].self_)
    else HashAt(rows[..|rows| - 1], id)
  }

  predicate Checks(h: Preimage -> Digest, read: Body -> Body, row: Row, prev: Digest) {
    h(Preimage(row.id, prev, read(row.body))) == row.self_
  }

  /** A selected row follows on in id and hashes to its stored digest over its predecessor's. */
  ghost predicate CheckedAt(h: Preimage -> Digest, read: Body -> Body, range: seq<Row>, from: int, first: Digest,
                            i: nat)
    requires i < |range|
  {
    range[i].id == from + i && Checks(h, read, range[i], if i == 0 then first else range[i - 1].self_)
  }

  ghost predicate AllCheck(h: Preimage -> Digest, read: Body -> Body, range: seq<Row>, from: int, first: Digest) {
    forall i | 0 <= i < |range| :: CheckedAt(h, read, range, from, first, i)
  }

  /** Row i is the first that does not check, and the outcome says how and after how many rows. */
  ghost predicate StopsAt(h: Preimage -> Digest, read: Body -> Body, range: seq<Row>, from: int, first: Digest, i: int,
                          res: Outcome)
  {
    && 0 <= i < |range| && !CheckedAt(h, read, range, from, first, i)
    && (forall j | 0 <= j < i :: CheckedAt(h, read, range, from, first, j))
    && res == if range[i].id != from + i then Failed(Discontinuity) else Mismatch(range[i].id, i + 1)
  }

  function From(from: int): int {
    if from == 0 then 1 else from
  }

  function To(from: int, to: int): int {
    if to < From(from) then From(from) else to
  }

  /** Verify over the committed rows; read is what storing a field and selecting it back does to it. */
  method Verify(h: Preimage -> Digest, read: Body -> Body, rows: seq<Row>, sentinel: Sentinel, from0: int, to0: int)
    returns (res: Outcome)
    ensures var from, to := From(from0), To(from0, to0);
      var range := InRange(rows, from, to);
      var first := if from == 1 then Some(sentinel.hash) else HashAt(rows, from - 1);
      && (res.Accepted? <==> range == [] || (first.Some? && AllCheck(h, read, range, from, first.value)))
      && (res.Accepted? ==> res == Accepted(|range|, from, from + |range| - 1))
      && (res == Failed(NoPreviousRow) <==> range != [] && first.None?)
      && (!res.Accepted? && first.Some? ==> exists i :: StopsAt(h, read, range, from, first.value, i, res))
  {
    var from, to := from0, to0;
    if from == 0 { from := 1; }
    if to < from { to := from; }
    var range := InRange(rows, from, to);
    var scanned := 0;
    if |range| == 0 {
      return Accepted(0, from, from - 1);
    }
    ghost var first := if from == 1 then Some(sentinel.hash) else HashAt(rows, from - 1);
    var prevHash := range[0].prev;
    while scanned < |range|
      invariant 0 <= scanned <= |range|
      invariant scanned > 0 ==>
        first.Some? && forall i | 0 <= i < scanned :: CheckedAt(h, read, range, from, first.value, i)
      invariant scanned > 0 ==> prevHash == range[scanned - 1].self_
    {
      var row := range[scanned];
      if scanned == 0 {
        if from == 1 {
          prevHash := sentinel.hash;
        } else {
          var before := HashAt(rows, from - 1);
          if before.None? {
            return Failed(NoPreviousRow);
          }
          prevHash := before.value;
        }
      }
      assert row.id == from + scanned && Checks(h, read, row, prevHash)
        <==> CheckedAt(h, read, range, from, first.value, scanned);
      if row.id != from + scanned {
        res := Failed(Discontinuity);
        assert StopsAt(h, read, range, from, first.value, scanned, res);
        return;
      }
      if !Checks(h, read, row, prevHash) {
        res := Mismatch(row.id, scanned + 1);
        assert StopsAt(h, read, range, from, first.value, scanned, res);
        return;
      }
      prevHash := row.self_;
      scanned := scanned + 1;
    }
    return Accepted(scanned, from, from + scanned - 1);
  }

  // ----- What Verify accepts -----

  /** A stored row is selected back with the bytes that were hashed. */
  predicate ReadsBack(read: Body -> Body, row: Row) {
    read(row.body) == row.body
  }

  /** a..b are the positions of the rows with ids from..to. */
  ghost predicate IsSlice(rows: seq<Row>, from: int, to: int, a: nat, b: nat) {
    && a <= b <= |rows|
    && (forall i | 0 <= i < a :: rows[i].id < from)
    && (forall i | a <= i < b :: from <= rows[i].id <= to)
    && (forall i | b <= i < |rows| :: rows[i].id > to)
  }

  lemma SliceGrows(rows: seq<Row>, last: Row, from: int, to: int, a: nat, b: nat) returns (c: nat, d: nat)
    requires IsSlice(rows, from, to, a, b) && from <= to + 1
    requires forall i | 0 <= i < |rows| :: rows[i].id < last.id
    ensures IsSlice(rows + [last], from, to, c, d)
    ensures (rows + [last])[c..d] == rows[a..b] + if from <= last.id <= to then [last] else []
  {
    var all := rows + [last];
    assert all[a].id <= last.id && all[b].id <= last.id;
    if last.id > to {
      c, d := a, b;
    } else if last.id >= from {
      assert b == |rows|;
      c, d := a, b + 1;
    } else {
      assert a == b == |rows|;
      c, d := a + 1, b + 1;
    }
  }

  /** Ids grow, so an id range is a slice. */
  lemma {:induction false} RangeIsSlice(rows: seq<Row>, nextId: int, from: int, to: int) returns (a: nat, b: nat)
    requires IdsBelow(rows, nextId) && from <= to + 1
    ensures IsSlice(rows, from, to, a, b) && InRange(rows, from, to) == rows[a..b]
    decreases |rows|
  {
    if |rows| == 0 {
      a, b := 0, 0;
    } else {
      var front, last := rows[..|rows| - 1], rows[|rows| - 1];
      a, b := RangeIsSlice(front, nextId, from, to);
      a, b := SliceGrows(front, last, from, to, a, b);
      assert rows == front + [last];
    }
  }

  lemma {:induction false} HashAtExactly(rows: seq<Row>, nextId: int, i: nat)
    requires IdsBelow(rows, nextId) && i < |rows|
    ensures HashAt(rows, rows[i].id) == Some(rows[i].self_)
    decreases |rows|
  {
    if i < |rows| - 1 {
      HashAtExactly(rows[..|rows| - 1], nextId, i);
    }
  }

  lemma {:induction false} HashAtFinds(rows: seq<Row>, id: int) returns (i: nat)
    requires HashAt(rows, id).Some?
    ensures i < |rows| && rows[i].id == id && rows[i].self_ == HashAt(rows, id).value
    decreases |rows|
  {
    i := |rows| - 1;
    if rows[i].id != id {
      i := HashAtFinds(rows[..|rows| - 1], id);
    }
  }

  lemma ChecksExactly(h: Preimage -> Digest, genesis: Digest, read: Body -> Body, rows: seq<Row>, i: nat)
    requires Injective(h) && IsChain(h, genesis, rows) && i < |rows|
    ensures Checks(h, read, rows[i], PrevOf(genesis, rows, i)) <==> rows[i].id == i + 1 && ReadsBack(read, rows[i])
  {
    var row := rows[i];
    var x := Preimage(row.id, row.prev, read(row.body));
    var y := Preimage(i + 1, row.prev, row.body);
    assert Linked(h, genesis, rows, i);
    assert h(y) == row.self_;
    if h(x) == h(y) { assert x == y; }
  }

  /** A row's id equals its position only if every earlier row's does: ids never fall behind positions. */
  lemma {:induction false} NoneBurnedBefore(rows: seq<Row>, nextId: int, i: nat, j: nat)
    requires IdsBelow(rows, nextId) && j <= i < |rows| && rows[i].id == i + 1
    ensures rows[j].id == j + 1
    decreases i - j
  {
    if j < i {
      assert i <= rows[i - 1].id < rows[i].id;
      NoneBurnedBefore(rows, nextId, i - 1, j);
    }
  }

  /** Verify's verdict on a range, from id 2 on. */
  ghost predicate VerifyAccepts(h: Preimage -> Digest, read: Body -> Body, rows: seq<Row>, from: int, to: int) {
    var range := InRange(rows, from, to);
    range == [] || (HashAt(rows, from - 1).Some? && AllCheck(h, read, range, from, HashAt(rows, from - 1).value))
  }

  lemma IdsOrder(rows: seq<Row>, nextId: int, i: nat, j: nat)
    requires IdsBelow(rows, nextId) && i < |rows| && j < |rows|
    ensures rows[i].id < rows[j].id <==> i < j
  {
    assert j < i ==> rows[j].id < rows[i].id;
  }

  /** The row before a slice is the one with the id before it. */
  lemma RowBefore(rows: seq<Row>, nextId: int, from: int, to: int, a: nat, b: nat, k: nat)
    requires IdsBelow(rows, nextId) && IsSlice(rows, from, to, a, b) && a < b
    requires rows[a].id == from && k < |rows| && rows[k].id == from - 1
    ensures a >= 1 && k == a - 1
  {
    IdsOrder(rows, nextId, k, a);
    IdsOrder(rows, nextId, k, a - 1);
  }

  lemma AcceptedMeansWhole(h: Preimage -> Digest, genesis: Digest, read: Body -> Body, rows: seq<Row>, nextId: int,
                           from: int, to: int, a: nat, b: nat)
    requires Injective(h) && IsChain(h, genesis, rows) && IdsBelow(rows, nextId)
    requires IsSlice(rows, from, to, a, b) && a < b && InRange(rows, from, to) == rows[a..b]
    requires VerifyAccepts(h, read, rows, from, to)
    ensures forall i | a <= i < b :: rows[i].id == i + 1 && ReadsBack(read, rows[i])
  {
    var range := rows[a..b];
    var first := HashAt(rows, from - 1).value;
    var k := HashAtFinds(rows, from - 1);
    assert CheckedAt(h, read, range, from, first, 0);
    RowBefore(rows, nextId, from, to, a, b, k);
    forall i | a <= i < b
      ensures rows[i].id == i + 1 && ReadsBack(read, rows[i])
    {
      assert CheckedAt(h, read, range, from, first, i - a);
      ChecksExactly(h, genesis, read, rows, i);
    }
  }

  lemma WholeIsAccepted(h: Preimage -> Digest, genesis: Digest, read: Body -> Body, rows: seq<Row>, nextId: int,
                        from: int, to: int, a: nat, b: nat)
    requires Injective(h) && IsChain(h, genesis, rows) && IdsBelow(rows, nextId)
    requires IsSlice(rows, from, to, a, b) && a < b && InRange(rows, from, to) == rows[a..b] && from >= 2
    requires forall i | 0 <= i < b :: rows[i].id == i + 1
    requires forall i | a <= i < b :: ReadsBack(read, rows[i])
    ensures VerifyAccepts(h, read, rows, from, to)
  {
    var range := rows[a..b];
    assert rows[a].id == a + 1 >= from;
    assert rows[from - 1].id == from;
    assert a == from - 1;
    var first := rows[a - 1].self_;
    HashAtExactly(rows, nextId, a - 1);
    forall i | 0 <= i < |range|
      ensures CheckedAt(h, read, range, from, first, i)
    {
      ChecksExactly(h, genesis, read, rows, a + i);
    }
  }

  /** No id up to this one was burned: rows with the ids 1..id are all there. */
  ghost predicate NoneBurned(rows: seq<Row>, id: int) {
    |InRange(rows, 1, id)| == id
  }

  lemma NoneBurnedExactly(rows: seq<Row>, nextId: int, i: nat)
    requires IdsBelow(rows, nextId) && i < |rows|
    ensures NoneBurned(rows, rows[i].id) <==> rows[i].id == i + 1
  {
    var a, b := RangeIsSlice(rows, nextId, 1, rows[i].id);
    assert rows[0].id >= 1;
    assert a == 0;
    assert i < b;
    if i + 1 < |rows| { IdsOrder(rows, nextId, i, i + 1); }
    assert b == i + 1;
  }

  /** From id 2 on, Verify accepts a range that holds a row exactly when no id was burned by a rollback up to its last
      row, so that ids are the hashed sequence numbers, and every row of it is read back as it was hashed. The
      promise that it accepts every chain holds only where no transaction rolled back. */
  lemma VerifyAcceptsExactly(h: Preimage -> Digest, genesis: Digest, read: Body -> Body, steps: seq<Step>, from: int,
                             to: int)
    requires Injective(h) && 2 <= from <= to
    requires InRange(DoAll(h, Fresh(genesis), steps).rows, from, to) != []
    ensures var rows := DoAll(h, Fresh(genesis), steps).rows;
      var range := InRange(rows, from, to);
      VerifyAccepts(h, read, rows, from, to)
      <==> NoneBurned(rows, range[|range| - 1].id) && forall row | row in range :: ReadsBack(read, row)
  {
    var s := DoAll(h, Fresh(genesis), steps);
    EveryRunIsAChain(h, genesis, steps);
    ChainAcceptedExactly(h, genesis, read, s.rows, s.nextId, from, to);
  }

  lemma ChainAcceptedExactly(h: Preimage -> Digest, genesis: Digest, read: Body -> Body, rows: seq<Row>, nextId: int,
                             from: int, to: int)
    requires Injective(h) && IsChain(h, genesis, rows) && IdsBelow(rows, nextId)
    requires 2 <= from <= to && InRange(rows, from, to) != []
    ensures var range := InRange(rows, from, to);
      VerifyAccepts(h, read, rows, from, to)
      <==> NoneBurned(rows, range[|range| - 1].id) && forall row | row in range :: ReadsBack(read, row)
  {
    var a, b := RangeIsSlice(rows, nextId, from, to);
    var range := rows[a..b];
    NoneBurnedExactly(rows, nextId, b - 1);
    if VerifyAccepts(h, read, rows, from, to) {
      AcceptedMeansWhole(h, genesis, read, rows, nextId, from, to, a, b);
    } else if NoneBurned(rows, range[|range| - 1].id) && forall row | row in range :: ReadsBack(read, row) {
      forall i | a <= i < b
        ensures ReadsBack(read, rows[i])
      {
        assert range[i - a] in range;
      }
      UnburnedIsAccepted(h, genesis, read, rows, nextId, from, to, a, b);
    }
  }

  lemma UnburnedIsAccepted(h: Preimage -> Digest, genesis: Digest, read: Body -> Body, rows: seq<Row>, nextId: int,
                           from: int, to: int, a: nat, b: nat)
    requires Injective(h) && IsChain(h, genesis, rows) && IdsBelow(rows, nextId)
    requires IsSlice(rows, from, to, a, b) && a < b && InRange(rows, from, to) == rows[a..b] && from >= 2
    requires rows[b - 1].id == b && forall i | a <= i < b :: ReadsBack(read, rows[i])
    ensures VerifyAccepts(h, read, rows, from, to)
  {
    forall i | 0 <= i < b
      ensures rows[i].id == i + 1
    {
      NoneBurnedBefore(rows, nextId, b - 1, i);
    }
    WholeIsAccepted(h, genesis, read, rows, nextId, from, to, a, b);
  }

  lemma {:induction false} DoAllAppend(h: Preimage -> Digest, s: State, a: seq<Step>, b: seq<Step>)
    ensures DoAll(h, s, a + b) == DoAll(h, DoAll(h, s, a), b)
    decreases |b|
  {
    if |b| == 0 {
      assert a + b == a;
    } else {
      assert (a + b)[..|a + b| - 1] == a + b[..|b| - 1];
      DoAllAppend(h, s, a, b[..|b| - 1]);
    }
  }

  lemma RolledBackWrite(h: Preimage -> Digest, s: State, tx: int, e: Entry)
    requires s.writer.None?
    ensures DoAll(h, s, [Lock(tx), Insert(tx, e), Rollback(tx)]) == s.(nextId := s.nextId + 1)
  {
    ThreeSteps(h, s, Lock(tx), Insert(tx, e), Rollback(tx));
  }

  lemma CommittedWrite(h: Preimage -> Digest, s: State, tx: int, e: Entry) returns (row: Row)
    requires s.writer.None?
    ensures var t := DoAll(h, s, [Lock(tx), Insert(tx, e), Advance(tx)] + [Commit(tx)]);
      t.rows == s.rows + [row] && row.id == s.nextId && t.nextId == s.nextId + 1 && t.writer.None?
  {
    row := NextRow(h, s.nextId, s.sentinel, e);
    var steps := [Lock(tx), Insert(tx, e), Advance(tx)];
    var mid := Do(h, Do(h, Do(h, s, Lock(tx)), Insert(tx, e)), Advance(tx));
    ThreeSteps(h, s, Lock(tx), Insert(tx, e), Advance(tx));
    assert mid.writer.value.pending == [row];
    assert (steps + [Commit(tx)])[..3] == steps;
    assert DoAll(h, s, steps + [Commit(tx)]) == Do(h, mid, Commit(tx));
  }

  /** A write that is rolled back, and two that are committed. */
  lemma OneRollback(h: Preimage -> Digest, genesis: Digest, e: Entry) returns (steps: seq<Step>)
    ensures var rows := DoAll(h, Fresh(genesis), steps).rows; |rows| == 2 && rows[0].id == 2 && rows[1].id == 3
  {
    var failed := [Lock(1), Insert(1, e), Rollback(1)];
    var first := [Lock(2), Insert(2, e), Advance(2)] + [Commit(2)];
    var second := [Lock(3), Insert(3, e), Advance(3)] + [Commit(3)];
    steps := failed + first + second;
    DoAllAppend(h, Fresh(genesis), failed, first);
    DoAllAppend(h, Fresh(genesis), failed + first, second);
    RolledBackWrite(h, Fresh(genesis), 1, e);
    var s1 := DoAll(h, Fresh(genesis), failed);
    var row1 := CommittedWrite(h, s1, 2, e);
    var row2 := CommittedWrite(h, DoAll(h, s1, first), 3, e);
  }

  /** One rolled-back write is enough: the two entries committed after it have ids 2 and 3 but hashed sequence numbers
      1 and 2, and Verify refuses the second although nothing was altered. */
  lemma RolledBackWriteBreaksVerify(h: Preimage -> Digest, genesis: Digest, e: Entry) returns (steps: seq<Step>)
    requires Injective(h)
    ensures var rows := DoAll(h, Fresh(genesis), steps).rows;
      InRange(rows, 3, 3) != [] && !VerifyAccepts(h, body => body, rows, 3, 3)
  {
    steps := OneRollback(h, genesis, e);
    var s := DoAll(h, Fresh(genesis), steps);
    EveryRunIsAChain(h, genesis, steps);
    BurnedIsRefused(h, genesis, s.rows, s.nextId);
  }

  lemma BurnedIsRefused(h: Preimage -> Digest, genesis: Digest, rows: seq<Row>, nextId: int)
    requires Injective(h) && IsChain(h, genesis, rows) && IdsBelow(rows, nextId)
    requires |rows| == 2 && rows[0].id == 2 && rows[1].id == 3
    ensures InRange(rows, 3, 3) != [] && !VerifyAccepts(h, body => body, rows, 3, 3)
  {
    TwoRowsOneInRange(rows);
    ChainAcceptedExactly(h, genesis, body => body, rows, nextId, 3, 3);
    NoneBurnedExactly(rows, nextId, 1);
  }

  lemma TwoRowsOneInRange(rows: seq<Row>)
    requires |rows| == 2 && rows[0].id == 2 && rows[1].id == 3
    ensures InRange(rows, 3, 3) == [rows[1]]
  {
    assert rows[..1] == [rows[0]] && [rows[0]][..0] == [];
    assert InRange(rows[..1], 3, 3) == [];
  }

  lemma PartsDecide(a: string, x: string, y: string, b: string)
    ensures a + x + b == a + y + b <==> x == y
  {
    if a + x + b == a + y + b {
      assert |a + x + b| == |a + y + b|;
      assert x == (a + x + b)[|a|..|a| + |x|] && y == (a + y + b)[|a|..|a| + |y|];
    }
  }

  /** Every field is hashed: two entries that differ in one field only have one body exactly when that field is the
      actor, absent in one and empty in the other. */
  lemma EveryFieldIsHashed(e: Entry, f: Entry)
    ensures f == e.(nanos := f.nanos) ==> (BodyOf(e) == BodyOf(f) <==> e.nanos == f.nanos)
    ensures f == e.(eventType := f.eventType) ==> (BodyOf(e) == BodyOf(f) <==> e.eventType == f.eventType)
    ensures f == e.(actor := f.actor) ==>
              (BodyOf(e) == BodyOf(f) <==> e.actor == f.actor || {e.actor, f.actor} == {None, Some("")})
    ensures f == e.(resourceType := f.resourceType) ==> (BodyOf(e) == BodyOf(f) <==> e.resourceType == f.resourceType)
    ensures f == e.(resourceId := f.resourceId) ==> (BodyOf(e) == BodyOf(f) <==> e.resourceId == f.resourceId)
    ensures f == e.(payload := f.payload) ==> (BodyOf(e) == BodyOf(f) <==> e.payload == f.payload)
  {
    var actor := if e.actor.Some? then e.actor.value else "";
    var other := if f.actor.Some? then f.actor.value else "";
    TailParts(e);
    TailParts(f);
    PartsDecide("", e.eventType, f.eventType, actor + e.resourceType + e.resourceId + e.payload);
    PartsDecide(e.eventType, actor, other, e.resourceType + e.resourceId + e.payload);
    PartsDecide(e.eventType + actor, e.resourceType, f.resourceType, e.resourceId + e.payload);
    PartsDecide(e.eventType + actor + e.resourceType, e.resourceId, f.resourceId, e.payload);
    PartsDecide(e.eventType + actor + e.resourceType + e.resourceId, e.payload, f.payload, "");
  }

  lemma TailParts(e: Entry)
    ensures var a := if e.actor.Some? then e.actor.value else "";
      && BodyOf(e).tail == "" + e.eventType + (a + e.resourceType + e.resourceId + e.payload)
      && BodyOf(e).tail == e.eventType + a + (e.resourceType + e.resourceId + e.payload)
      && BodyOf(e).tail == (e.eventType + a) + e.resourceType + (e.resourceId + e.payload)
      && BodyOf(e).tail == (e.eventType + a + e.resourceType) + e.resourceId + e.payload
      && BodyOf(e).tail == (e.eventType + a + e.resourceType + e.resourceId) + e.payload + ""
  {}
}
