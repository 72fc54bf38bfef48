/** Bit-addressed access to the eFuse rows, api/scm_efuse.c.

    The device is a sequence of rows of four bytes, lowest first.  Each request to it has
    a status: a negative one means that it failed and changed nothing, as it does for a
    row past the end. */
module Efuse {
  import opened Bits

  const WISE_OK := 0
  const WISE_ERR_INVALID_STATE := 0x103
  const WISE_ERR_NOT_FOUND := 0x105
  const WISE_ERR_IOCTL := 0x10C

  type Row = r: seq<nat> | |r| == 4 && IsBytes(r) witness [0, 0, 0, 0]

  predicate DeviceBit(rows: seq<Row>, n: nat)
    requires n < 32 * |rows|
  {
    ByteBit(rows[n / 32], n % 32)
  }

  /** Just enough bytes for the bits. */
  function ByteCount(count: nat): (n: nat)
    ensures count <= 8 * n < count + 8
  {
    count / 8 + if count % 8 != 0 then 1 else 0
  }

  /** Rows that an access goes through; an empty one still visits the first row. */
  function RowsTouched(offset: nat, count: nat): (n: nat)
    ensures n > 0 && offset + count <= 32 * (offset / 32 + n)
    ensures n > 1 ==> 32 * (offset / 32 + n - 1) < offset + count
  {
    if count == 0 then 1 else (offset + count - 1) / 32 - offset / 32 + 1
  }

  // ----- Reading -----

  /** The first n bytes of `val` are the first m addressed bits, low first, then zeros. */
  predicate Copied(val: seq<nat>, n: nat, rows: seq<Row>, offset: nat, m: nat) {
    && IsBytes(val) && n <= |val|
    && offset + m <= 32 * |rows|
    && forall j :: 0 <= j < 8 * n ==> ByteBit(val, j) == (j < m && DeviceBit(rows, offset + j))
  }

  lemma NothingCopied(val: seq<nat>, n: nat, rows: seq<Row>, offset: nat)
    requires IsBytes(val) && n <= |val| && offset <= 32 * |rows|
    requires forall k :: 0 <= k < n ==> val[k] == 0
    ensures Copied(val, n, rows, offset, 0)
  {
    forall j | 0 <= j < 8 * n ensures !ByteBit(val, j) { ZeroBit(j % 8); }
  }

  lemma CopyOne(val: seq<nat>, n: nat, rows: seq<Row>, offset: nat, m: nat)
    requires Copied(val, n, rows, offset, m) && m < 8 * n && offset + m < 32 * |rows|
    ensures Copied(WithBit(val, m, DeviceBit(rows, offset + m)), n, rows, offset, m + 1)
    ensures WithBit(val, m, DeviceBit(rows, offset + m))[n..] == val[n..]
  {
    WithBitExact(val, m, DeviceBit(rows, offset + m));
  }

  // ----- Changing -----

  datatype Edit = OrIn(val: seq<nat>) | ClearAll

  predicate Covers(e: Edit, count: nat) {
    e.OrIn? ==> count <= 8 * |e.val|
  }

  predicate NewBit(e: Edit, j: nat, was: bool)
    requires e.OrIn? ==> j < 8 * |e.val|
  {
    e.OrIn? && (was || ByteBit(e.val, j))
  }

  /** What bit n should become. */
  predicate Wanted(rows: seq<Row>, offset: nat, count: nat, e: Edit, n: nat)
    requires Covers(e, count) && n < 32 * |rows|
  {
    if offset <= n < offset + count then NewBit(e, n - offset, DeviceBit(rows, n)) else DeviceBit(rows, n)
  }

  /** The bits below `limit` have been edited, the others are as they were. */
  predicate EditedTo(was: seq<Row>, now: seq<Row>, offset: nat, count: nat, e: Edit, limit: nat)
    requires Covers(e, count)
  {
    && |now| == |was|
    && forall n :: 0 <= n < 32 * |was| ==>
         DeviceBit(now, n) == if n < limit then Wanted(was, offset, count, e, n) else DeviceBit(was, n)
  }

  /** The same for the copy of one row. */
  predicate RowEditedTo(was: seq<Row>, row: nat, cell: Row, offset: nat, count: nat, e: Edit, limit: nat)
    requires Covers(e, count) && row < |was|
  {
    forall p :: 0 <= p < 32 ==>
      ByteBit(cell, p) ==
        if 32 * row + p < limit then Wanted(was, offset, count, e, 32 * row + p) else DeviceBit(was, 32 * row + p)
  }

  /** r is cell with bit p as the edit wants it. */
  lemma EditOne(was: seq<Row>, row: nat, cell: Row, r: Row, offset: nat, count: nat, e: Edit, p: nat)
    requires Covers(e, count) && row < |was| && p < 32
    requires offset <= 32 * row + p < offset + count
    requires RowEditedTo(was, row, cell, offset, count, e, 32 * row + p)
    requires forall j :: 0 <= j < 32 ==>
               ByteBit(r, j) == if j == p then NewBit(e, 32 * row + p - offset, ByteBit(cell, p)) else ByteBit(cell, j)
    ensures RowEditedTo(was, row, r, offset, count, e, 32 * row + p + 1)
  {
  }

  lemma RowStored(was: seq<Row>, now: seq<Row>, row: nat, cell: Row, offset: nat, count: nat, e: Edit, limit: nat)
    requires Covers(e, count) && row < |was|
    requires EditedTo(was, now, offset, count, e, 32 * row)
    requires RowEditedTo(was, row, cell, offset, count, e, limit)
    requires limit == 32 * row + 32 || offset + count == limit
    ensures EditedTo(was, now[row := cell], offset, count, e, 32 * row + 32)
  {
    var now' := now[row := cell];
    forall n | 0 <= n < 32 * |was|
      ensures DeviceBit(now', n) == if n < 32 * row + 32 then Wanted(was, offset, count, e, n) else DeviceBit(was, n)
    {
      if n / 32 == row {
        assert DeviceBit(now', n) == ByteBit(cell, n % 32);
        assert 32 * row + n % 32 == n;
      } else {
        assert DeviceBit(now', n) == DeviceBit(now, n);
      }
    }
  }

  /** A row not reached yet reads as it was. */
  lemma RowFresh(was: seq<Row>, now: seq<Row>, row: nat, offset: nat, count: nat, e: Edit, limit: nat)
    requires Covers(e, count) && row < |was| && EditedTo(was, now, offset, count, e, 32 * row)
    requires limit <= offset || limit == 32 * row
    ensures RowEditedTo(was, row, now[row], offset, count, e, limit)
  {
    forall p | 0 <= p < 32
      ensures ByteBit(now[row], p) ==
                if 32 * row + p < limit then Wanted(was, offset, count, e, 32 * row + p)
                else DeviceBit(was, 32 * row + p)
    {
      BitOfRow(now, row, p);
    }
  }

  lemma BitOfRow(rows: seq<Row>, row: nat, p: nat)
    requires row < |rows| && p < 32
    ensures DeviceBit(rows, 32 * row + p) == ByteBit(rows[row], p)
  {
    assert (32 * row + p) / 32 == row && (32 * row + p) % 32 == p;
  }

  lemma NothingEdited(rows: seq<Row>, offset: nat, count: nat, e: Edit)
    requires Covers(e, count)
    ensures EditedTo(rows, rows, offset, count, e, 32 * (offset / 32))
  {
  }

  /** The first k touched rows have been edited and written once each, in order, and no
      other row has changed. */
  ghost predicate RowsDone(was: seq<Row>, log: seq<nat>, now: seq<Row>, log': seq<nat>,
                           offset: nat, count: nat, e: Edit, k: int)
    requires Covers(e, count)
  {
    && 0 <= k <= RowsTouched(offset, count)
    && log' == log + Ascending(offset / 32, k)
    && EditedTo(was, now, offset, count, e, 32 * (offset / 32 + k))
  }

  /** Once all touched rows are done, every bit of the device is as wanted. */
  lemma AllRowsDone(was: seq<Row>, log: seq<nat>, now: seq<Row>, log': seq<nat>,
                    offset: nat, count: nat, e: Edit, n: nat)
    requires Covers(e, count) && n < 32 * |was|
    requires RowsDone(was, log, now, log', offset, count, e, RowsTouched(offset, count))
    ensures |now| == |was| && (DeviceBit(now, n) <==> Wanted(was, offset, count, e, n))
  {
  }

  /** The addressed bits of val are ORed in, all other bits are as before. */
  predicate OredIn(was: seq<Row>, now: seq<Row>, offset: nat, count: nat, val: seq<nat>) {
    && |now| == |was| && offset + count <= 32 * |now| && count <= 8 * |val|
    && forall n :: 0 <= n < 32 * |now| ==>
         (DeviceBit(now, n) <==> DeviceBit(was, n) || (offset <= n < offset + count && ByteBit(val, n - offset)))
  }

  /** The addressed bits are zero, all other bits are as before. */
  predicate Cleared(was: seq<Row>, now: seq<Row>, offset: nat, count: nat) {
    && |now| == |was| && offset + count <= 32 * |now|
    && forall n :: 0 <= n < 32 * |now| ==>
         (DeviceBit(now, n) <==> DeviceBit(was, n) && !(offset <= n < offset + count))
  }

  // ----- Walking over the rows -----

  /** The loop variables: bit i of the access is bit `startBit` of byte `startByte` of
      `row`, and bit `resultBit` of byte `resultByte` of the caller's buffer. */
  datatype Walk = Walk(i: nat, row: nat, startByte: nat, startBit: nat, resultByte: nat, resultBit: nat)

  /** After the last bit the walk may stand at the end of the row. */
  predicate Walking(offset: nat, count: nat, w: Walk) {
    && w.i <= count
    && 8 * w.resultByte + w.resultBit == w.i && w.resultBit < 8
    && 32 * w.row + 8 * w.startByte + w.startBit == offset + w.i && w.startBit < 8
    && (w.startByte < 4 || (w.startByte == 4 && w.startBit == 0 && w.i == count))
    && Reached(offset, count, w.row)
  }

  /** A row the access has to visit. */
  predicate Reached(offset: nat, count: nat, row: nat) {
    row == offset / 32 || offset < 32 * row < offset + count
  }

  lemma ReachedRow(offset: nat, count: nat, row: nat)
    requires Reached(offset, count, row)
    ensures offset / 32 <= row && row - offset / 32 + 1 <= RowsTouched(offset, count)
  {
  }

  /** The last bit is in the last row touched. */
  lemma LastRow(offset: nat, count: nat, w: Walk)
    requires Walking(offset, count, w) && w.i == count
    ensures offset / 32 <= w.row && w.row - offset / 32 + 1 == RowsTouched(offset, count)
    ensures offset + count <= 32 * w.row + 32
  {
  }

  method FirstWalk(offset: nat, ghost count: nat) returns (w: Walk)
    ensures Walking(offset, count, w) && w.i == 0 && w.row == offset / 32
  {
    w := Walk(0, offset / 32, offset % 32 / 8, offset % 32 % 8, 0, 0);
  }

  /** Steps both cursors to the next bit; `newRow` when a row ends before the last bit. */
  method NextWalk(ghost offset: nat, count: nat, w: Walk) returns (w': Walk, newRow: bool)
    requires Walking(offset, count, w) && w.i < count
    ensures Walking(offset, count, w') && w'.i == w.i + 1
    ensures newRow ==> w'.row == w.row + 1 && 32 * w'.row == offset + w'.i
    ensures !newRow ==> w'.row == w.row
  {
    w' := w.(i := w.i + 1, resultBit := w.resultBit + 1, startBit := w.startBit + 1);
    if w'.resultBit == 8 {
      w' := w'.(resultByte := w'.resultByte + 1, resultBit := 0);
    }
    newRow := false;
    if w'.startBit == 8 {
      w' := w'.(startByte := w'.startByte + 1);
      if w'.startByte == 4 && w.i != count - 1 {
        newRow := true;
        w' := w'.(startByte := 0, row := w'.row + 1);
      }
      w' := w'.(startBit := 0);
    }
  }

  function Ascending(first: nat, n: nat): seq<nat> {
    seq(n, k => first + k)
  }

  /** Requests c0, c0 + 1, ... for rows first, first + 1, ... are served, k of them. */
  predicate Serves(answers: nat -> int, rowCount: nat, c0: nat, first: nat, k: nat) {
    k == 0 || (Serves(answers, rowCount, c0, first, k - 1) && answers(c0 + k - 1) >= 0 && first + k - 1 < rowCount)
  }

  /** Requests fail at row first + k, after the first m addressed bits. */
  predicate FailsAfter(answers: nat -> int, rowCount: nat, c0: nat, offset: nat, k: nat, m: nat) {
    && Serves(answers, rowCount, c0, offset / 32, k) && !Serves(answers, rowCount, c0, offset / 32, k + 1)
    && m == if k == 0 then 0 else 32 * (offset / 32 + k) - offset
  }

  lemma {:induction false} ServesFewer(answers: nat -> int, rowCount: nat, c0: nat, first: nat, k: nat, m: nat)
    requires k <= m
    ensures Serves(answers, rowCount, c0, first, m) ==> Serves(answers, rowCount, c0, first, k)
  {
    if k == m {
    } else {
      ServesFewer(answers, rowCount, c0, first, k, m - 1);
    }
  }

  lemma NotAllServed(answers: nat -> int, rowCount: nat, c0: nat, offset: nat, k: nat, m: nat, all: nat)
    requires FailsAfter(answers, rowCount, c0, offset, k, m) && k < all
    ensures !Serves(answers, rowCount, c0, offset / 32, all)
  {
    ServesFewer(answers, rowCount, c0, offset / 32, k + 1, all);
  }

  /** They are served, and the last of them with status 0. */
  predicate Delivers(answers: nat -> int, rowCount: nat, c0: nat, first: nat, k: nat) {
    k > 0 && Serves(answers, rowCount, c0, first, k) && answers(c0 + k - 1) == 0
  }

  /** The same when each row takes two requests: it is read, then written. */
  predicate Saves(answers: nat -> int, rowCount: nat, c0: nat, first: nat, k: nat) {
    k == 0 || (Saves(answers, rowCount, c0, first, k - 1) && SavesRow(answers, rowCount, c0, first, k - 1))
  }

  predicate SavesRow(answers: nat -> int, rowCount: nat, c0: nat, first: nat, k: nat) {
    answers(c0 + 2 * k) >= 0 && answers(c0 + 2 * k + 1) >= 0 && first + k < rowCount
  }

  predicate Finishes(answers: nat -> int, rowCount: nat, c0: nat, first: nat, k: nat) {
    k > 0 && Saves(answers, rowCount, c0, first, k) && answers(c0 + 2 * k - 1) == 0
  }

  lemma {:induction false} SavesFewer(answers: nat -> int, rowCount: nat, c0: nat, first: nat, k: nat, m: nat)
    requires k <= m
    ensures Saves(answers, rowCount, c0, first, m) ==> Saves(answers, rowCount, c0, first, k)
  {
    if k == m {
    } else {
      SavesFewer(answers, rowCount, c0, first, k, m - 1);
    }
  }

  lemma SplitByte(k: nat, b: nat)
    requires b < 8
    ensures (8 * k + b) / 8 == k && (8 * k + b) % 8 == b
  {
  }

  lemma AddressedBit(rows: seq<Row>, offset: nat, count: nat, w: Walk)
    requires Walking(offset, count, w) && w.i < count && w.row < |rows|
    ensures offset + w.i < 32 * |rows|
    ensures DeviceBit(rows, offset + w.i) == Bit(rows[w.row][w.startByte], w.startBit)
  {
    SplitByte(w.startByte, w.startBit);
    var p := 8 * w.startByte + w.startBit;
    assert (offset + w.i) / 32 == w.row && (offset + w.i) % 32 == p;
  }

  /** Copies the addressed bit of the row to its place in val. */
  method CopyBit(cell: Row, val: array<nat>, w: Walk, ghost n: nat, ghost rows: seq<Row>, ghost offset: nat,
                 ghost count: nat, ghost m: nat, ghost m': nat)
    requires Walking(offset, count, w) && w.i < count <= 8 * n && w.row < |rows| && cell == rows[w.row]
    requires m == w.i && m' == m + 1 && Copied(val[..], n, rows, offset, m)
    modifies val
    ensures Copied(val[..], n, rows, offset, m') && val[n..] == old(val[n..])
  {
    CopyOne(val[..], n, rows, offset, w.i);
    SplitByte(w.resultByte, w.resultBit);
    AddressedBit(rows, offset, count, w);
    AndPow2(cell[w.startByte], w.startBit);
    if And(cell[w.startByte], Pow2(w.startBit)) != 0 {
      val[w.resultByte] := Or(val[w.resultByte], Pow2(w.resultBit));
    } else {
      val[w.resultByte] := AndNot(val[w.resultByte], Pow2(w.resultBit));
    }
    assert val[..] == WithBit(old(val[..]), w.i, DeviceBit(rows, offset + w.i));
  }

  // ----- The device and the access functions -----

  /** `last` is the status of the latest request. */
  class Device {
    var rows: seq<Row>
    var calls: nat
    var last: int
    var writes: seq<nat>
    const answers: nat -> int

    constructor (rows: seq<Row>, answers: nat -> int)
      ensures this.rows == rows && calls == 0 && writes == [] && this.answers == answers
    {
      this.rows, this.answers := rows, answers;
      calls, last, writes := 0, 0, [];
    }

    method Request(row: nat) returns (ok: bool)
      modifies this`calls, this`last
      ensures calls == old(calls) + 1
      ensures ok <==> answers(old(calls)) >= 0 && row < |rows|
      ensures if ok then last == answers(old(calls)) else last < 0
    {
      last := if row < |rows| then answers(calls) else -1;
      calls := calls + 1;
      ok := last >= 0;
    }

    method ReadRow(row: nat) returns (ok: bool, cell: Row)
      modifies this`calls, this`last
      ensures calls == old(calls) + 1
      ensures ok <==> answers(old(calls)) >= 0 && row < |rows|
      ensures if ok then last == answers(old(calls)) else last < 0
      ensures ok ==> cell == rows[row]
    {
      ok := Request(row);
      cell := [0, 0, 0, 0];
      if ok { cell := rows[row]; }
    }

    method WriteRow(row: nat, cell: Row) returns (ok: bool)
      modifies this
      ensures calls == old(calls) + 1
      ensures ok <==> answers(old(calls)) >= 0 && row < |old(rows)|
      ensures if ok then last == answers(old(calls)) else last < 0
      ensures ok ==> rows == old(rows)[row := cell] && writes == old(writes) + [row]
      ensures !ok ==> rows == old(rows) && writes == old(writes)
    {
      ok := Request(row);
      if ok {
        rows := rows[row := cell];
        writes := writes + [row];
      }
    }

    /** scm_efuse_read: exactly the addressed bits, low first, the rest of the last byte
        zero; if a request fails, the bits of the rows read so far.  A positive status of
        the last request is reported as an error although all bits have been read. */
    method Read(available: bool, offset: nat, count: nat, val: array<nat>) returns (rc: int, ghost m: nat)
      requires ByteCount(count) <= val.Length && IsBytes(val[..])
      modifies val, this`calls, this`last
      ensures !available ==> rc == WISE_ERR_NOT_FOUND && val[..] == old(val[..])
      ensures available ==> rc == if Delivers(answers, |rows|, old(calls), offset / 32, RowsTouched(offset, count))
                                  then WISE_OK else WISE_ERR_IOCTL
      ensures available && offset <= 32 * |rows| ==> m <= count && Copied(val[..], ByteCount(count), rows, offset, m)
      ensures available && Serves(answers, |rows|, old(calls), offset / 32, RowsTouched(offset, count)) ==>
                m == count && Copied(val[..], ByteCount(count), rows, offset, m)
      ensures available && !Serves(answers, |rows|, old(calls), offset / 32, RowsTouched(offset, count)) ==>
                exists k :: FailsAfter(answers, |rows|, old(calls), offset, k, m)
      ensures val[ByteCount(count)..] == old(val[ByteCount(count)..])
    {
      m := 0;
      if !available { return WISE_ERR_NOT_FOUND, m; }
      var n := ByteCount(count);
      forall k | 0 <= k < n { val[k] := 0; }
      if offset <= 32 * |rows| { NothingCopied(val[..], n, rows, offset); }
      var ok;
      ok, m := ReadRows(offset, count, val, n);
      rc := if last != 0 then WISE_ERR_IOCTL else WISE_OK;
    }

    /** Everything after the memset. */
    method ReadRows(offset: nat, count: nat, val: array<nat>, ghost n: nat) returns (ok: bool, ghost m: nat)
      requires n == ByteCount(count) <= val.Length
      requires offset <= 32 * |rows| ==> Copied(val[..], n, rows, offset, 0)
      modifies val, this`calls, this`last
      ensures ok <==> Serves(answers, |rows|, old(calls), offset / 32, RowsTouched(offset, count))
      ensures if ok then last == answers(old(calls) + RowsTouched(offset, count) - 1) else last < 0
      ensures offset <= 32 * |rows| ==> m <= count && Copied(val[..], n, rows, offset, m)
      ensures ok ==> m == count && Copied(val[..], n, rows, offset, m)
      ensures !ok ==> exists k :: FailsAfter(answers, |rows|, old(calls), offset, k, m)
      ensures val[n..] == old(val[n..])
    {
      m := 0;
      var w := FirstWalk(offset, count);
      var cell;
      ok, cell := ReadRow(w.row);
      ghost var c0, first := old(calls), w.row;
      if ok {
        ok, m, w := ReadLoop(offset, count, val, n, w, cell, first, c0);
      } else {
        assert BeforeRow(c0, offset, w.row, m);
      }
      ReachedRow(offset, count, w.row);
      if ok {
        LastRow(offset, count, w);
      } else {
        NotAllServed(answers, |rows|, c0, offset, w.row - first, m, RowsTouched(offset, count));
      }
    }

    /** Row `row` is in `cell`, and every request for a row so far was served. */
    ghost predicate AtRow(c0: nat, first: nat, row: nat, cell: Row)
      reads this
    {
      && first <= row < |rows| && cell == rows[row]
      && Serves(answers, |rows|, c0, first, row - first + 1)
      && calls == c0 + (row - first) + 1 && last == answers(c0 + (row - first))
    }

    /** The request for row `row` failed, after m bits. */
    ghost predicate BeforeRow(c0: nat, offset: nat, row: nat, m: nat)
      reads this
    {
      && offset / 32 <= row && last < 0
      && FailsAfter(answers, |rows|, c0, offset, row - offset / 32, m)
    }

    /** One turn of the loop: copies a bit and, at the end of a row, reads the next. */
    method CopyAndAdvance(offset: nat, count: nat, val: array<nat>, ghost n: nat, w: Walk, cell: Row,
                          ghost first: nat, ghost m: nat, ghost c0: nat)
      returns (ok: bool, w': Walk, cell': Row, ghost m': nat)
      requires Walking(offset, count, w) && w.i < count <= 8 * n && m == w.i && first == offset / 32
      requires Copied(val[..], n, rows, offset, m) && AtRow(c0, first, w.row, cell)
      modifies val, this`calls, this`last
      ensures Walking(offset, count, w') && w'.i == w.i + 1 && m' == w'.i
      ensures Copied(val[..], n, rows, offset, m') && val[n..] == old(val[n..])
      ensures if ok then AtRow(c0, first, w'.row, cell') else BeforeRow(c0, offset, w'.row, m')
    {
      ok, m', cell' := true, m + 1, cell;
      CopyBit(cell, val, w, n, rows, offset, count, m, m');
      var newRow;
      w', newRow := NextWalk(offset, count, w);
      if newRow {
        ok, cell' := ReadRow(w'.row);
      }
    }

    /** Stops after the last bit, or at the row whose request fails. */
    method ReadLoop(offset: nat, count: nat, val: array<nat>, ghost n: nat, w0: Walk, cell0: Row,
                    ghost first: nat, ghost c0: nat)
      returns (ok: bool, ghost m: nat, w: Walk)
      requires n == ByteCount(count) <= val.Length && Copied(val[..], n, rows, offset, 0)
      requires Walking(offset, count, w0) && w0.i == 0 && first == offset / 32 && AtRow(c0, first, w0.row, cell0)
      modifies val, this`calls, this`last
      ensures m <= count && Copied(val[..], n, rows, offset, m) && val[n..] == old(val[n..])
      ensures Walking(offset, count, w) && (ok ==> w.i == m == count)
      ensures if ok then w.row < |rows| && AtRow(c0, first, w.row, rows[w.row]) else BeforeRow(c0, offset, w.row, m)
    {
      ok, m, w := true, 0, w0;
      var cell := cell0;
      while w.i < count && ok
        invariant Walking(offset, count, w) && m == w.i
        invariant Copied(val[..], n, rows, offset, m) && val[n..] == old(val[n..])
        invariant if ok then AtRow(c0, first, w.row, cell) else BeforeRow(c0, offset, w.row, m)
        decreases count - w.i
      {
        ok, w, cell, m := CopyAndAdvance(offset, count, val, n, w, cell, first, m, c0);
      }
    }

    /** k rows from `first` on have been edited and written, in order. */
    ghost predicate Progress(was: seq<Row>, log: seq<nat>, first: nat, k: nat, offset: nat, count: nat, e: Edit)
      reads this
    {
      && Covers(e, count)
      && writes == log + Ascending(first, k)
      && EditedTo(was, rows, offset, count, e, 32 * (first + k))
    }

    /** k rows have been saved, and the next one has been read and edited in `cell` up to
        bit `limit` of the device. */
    ghost predicate Editing(was: seq<Row>, log: seq<nat>, first: nat, k: nat, offset: nat, count: nat, e: Edit,
                            row: nat, cell: Row, limit: nat, c0: nat)
      reads this
    {
      && Progress(was, log, first, k, offset, count, e)
      && row == first + k < |was|
      && RowEditedTo(was, row, cell, offset, count, e, limit)
      && Saves(answers, |was|, c0, first, k)
      && calls == c0 + 2 * k + 1 && answers(c0 + 2 * k) >= 0
    }

    /** k rows have been saved, and a request for the next one failed. */
    ghost predicate Stopped(was: seq<Row>, log: seq<nat>, first: nat, k: nat, offset: nat, count: nat, e: Edit,
                            c0: nat)
      reads this
    {
      && Progress(was, log, first, k, offset, count, e)
      && Saves(answers, |was|, c0, first, k) && !SavesRow(answers, |was|, c0, first, k) && last < 0
    }

    /** k rows have been saved and all requests were served. */
    ghost predicate Saved(was: seq<Row>, log: seq<nat>, first: nat, k: nat, offset: nat, count: nat, e: Edit,
                          c0: nat)
      reads this
    {
      && Progress(was, log, first, k, offset, count, e)
      && Saves(answers, |was|, c0, first, k)
      && calls == c0 + 2 * k && first + k <= |was|
      && k > 0 && last == answers(c0 + 2 * k - 1)
    }

    /** Writes an edited row. */
    method Store(ghost was: seq<Row>, ghost log: seq<nat>, ghost first: nat, ghost k: nat,
                 ghost offset: nat, ghost count: nat, ghost e: Edit, row: nat, cell: Row, ghost limit: nat,
                 ghost c0: nat)
      returns (ok: bool, ghost k': nat)
      requires Editing(was, log, first, k, offset, count, e, row, cell, limit, c0)
      requires limit == 32 * row + 32 || limit == offset + count
      modifies this
      ensures ok ==> k' == k + 1 && Saved(was, log, first, k', offset, count, e, c0)
      ensures !ok ==> k' == k && Stopped(was, log, first, k', offset, count, e, c0)
    {
      k' := k;
      RowStored(was, rows, row, cell, offset, count, e, limit);
      ok := WriteRow(row, cell);
      if ok {
        AscendingMore(first, k);
        k' := k + 1;
      }
    }

    /** At the end of a row: writes it and, unless that was the last bit, reads the next
        one. */
    method StoreAndAdvance(ghost was: seq<Row>, ghost log: seq<nat>, ghost first: nat, ghost k: nat,
                           ghost offset: nat, count: nat, ghost e: Edit, i: nat, row: nat, cell: Row,
                           row': nat, ghost limit: nat, ghost c0: nat)
      returns (ok: bool, writeComplete: bool, next: Row, ghost k': nat)
      requires Editing(was, log, first, k, offset, count, e, row, cell, limit, c0)
      requires row' == row + 1 && limit == 32 * row'
      modifies this
      ensures k' <= k + 1 && (writeComplete ==> i + 1 == count)
      ensures ok && !writeComplete ==> Editing(was, log, first, k', offset, count, e, row', next, limit, c0)
      ensures !ok ==> Stopped(was, log, first, k', offset, count, e, c0)
    {
      next := cell;
      writeComplete := false;
      ok, k' := Store(was, log, first, k, offset, count, e, row, cell, limit, c0);
      if ok {
        writeComplete := i + 1 == count;
        if !writeComplete {
          ok, next := ReadRow(row');
          if ok { RowFresh(was, rows, row', offset, count, e, limit); }
        }
      }
    }

    /** One turn of the loop: edits a bit and, at the end of a row, goes to the next.  The
        test that sets write_complete never holds, because the row end before the last
        bit is the only one that counts. */
    method EditAndAdvance(ghost was: seq<Row>, ghost log: seq<nat>, ghost first: nat, ghost k: nat,
                          offset: nat, count: nat, e: Edit, w: Walk, cell: Row, ghost limit: nat, ghost c0: nat)
      returns (ok: bool, writeComplete: bool, w': Walk, cell': Row, ghost k': nat, ghost limit': nat)
      requires Walking(offset, count, w) && w.i < count && limit == offset + w.i
      requires Editing(was, log, first, k, offset, count, e, w.row, cell, limit, c0)
      modifies this
      ensures !writeComplete
      ensures Walking(offset, count, w') && w'.i == w.i + 1 && limit' == offset + w'.i && first + k' <= w'.row
      ensures ok ==> Editing(was, log, first, k', offset, count, e, w'.row, cell', limit', c0)
      ensures !ok ==> Stopped(was, log, first, k', offset, count, e, c0)
    {
      ok, writeComplete, k', limit' := true, false, k, limit + 1;
      cell' := EditBit(was, w.row, cell, offset, count, e, w, limit, limit');
      var newRow;
      w', newRow := NextWalk(offset, count, w);
      if newRow {
        ok, writeComplete, cell', k' :=
          StoreAndAdvance(was, log, first, k, offset, count, e, w.i, w.row, cell', w'.row, limit', c0);
      }
    }

    /** All rows but the last, which is left edited in `cell`. */
    method ModifyLoop(ghost was: seq<Row>, ghost log: seq<nat>, ghost first: nat, offset: nat, count: nat, e: Edit,
                      w0: Walk, cell0: Row, ghost limit0: nat, ghost c0: nat)
      returns (ok: bool, writeComplete: bool, w: Walk, cell: Row, ghost k: nat, ghost limit: nat)
      requires Walking(offset, count, w0) && w0.i == 0 && limit0 == offset
      requires Editing(was, log, first, 0, offset, count, e, w0.row, cell0, limit0, c0)
      modifies this
      ensures !writeComplete
      ensures Walking(offset, count, w) && first + k <= w.row
      ensures ok ==> w.i == count && limit == offset + count
      ensures ok ==> Editing(was, log, first, k, offset, count, e, w.row, cell, limit, c0)
      ensures !ok ==> Stopped(was, log, first, k, offset, count, e, c0)
    {
      ok, writeComplete, w, cell, k, limit := true, false, w0, cell0, 0, limit0;
      while w.i < count && ok && !writeComplete
        invariant !writeComplete
        invariant Walking(offset, count, w) && limit == offset + w.i && first + k <= w.row
        invariant ok ==> Editing(was, log, first, k, offset, count, e, w.row, cell, limit, c0)
        invariant !ok ==> Stopped(was, log, first, k, offset, count, e, c0)
        decreases count - w.i
      {
        ok, writeComplete, w, cell, k, limit :=
          EditAndAdvance(was, log, first, k, offset, count, e, w, cell, limit, c0);
      }
    }

    /** Each touched row is read, edited and written once, in order, until a request
        fails. */
    method SaveRows(offset: nat, count: nat, e: Edit, ghost first: nat, ghost all: nat)
      returns (ok: bool, ghost k: nat)
      requires Covers(e, count) && first == offset / 32 && all == RowsTouched(offset, count)
      modifies this
      ensures ok ==> k == all && Saved(old(rows), old(writes), first, k, offset, count, e, old(calls))
      ensures !ok ==> k < all && Stopped(old(rows), old(writes), first, k, offset, count, e, old(calls))
    {
      ghost var was, log, c0, limit := rows, writes, calls, offset;
      NothingEdited(rows, offset, count, e);
      k := 0;
      var w := FirstWalk(offset, count);
      var writeComplete, cell := false, [0, 0, 0, 0];
      ok, cell := ReadRow(w.row);
      if ok {
        RowFresh(was, rows, w.row, offset, count, e, limit);
        ok, writeComplete, w, cell, k, limit := ModifyLoop(was, log, first, offset, count, e, w, cell, limit, c0);
        if ok {
          LastRow(offset, count, w);
          if !writeComplete {
            ok, k := Store(was, log, first, k, offset, count, e, w.row, cell, limit, c0);
          }
        }
      }
      ReachedRow(offset, count, w.row);
    }

    /** scm_efuse_write and scm_efuse_clr_buffer between their checks and the end: every
        touched row is written once, in order, exactly when all its requests are served,
        two for each row; after a failure exactly the rows written so far carry the change.
        It is reported as a success exactly if the last status is 0 too. */
    method Modify(offset: nat, count: nat, e: Edit) returns (rc: int)
      requires Covers(e, count)
      modifies this
      ensures rc == WISE_OK || rc == WISE_ERR_IOCTL
      ensures RowsDone(old(rows), old(writes), rows, writes, offset, count, e, |writes| - |old(writes)|)
      ensures Saves(answers, |rows|, old(calls), offset / 32, RowsTouched(offset, count))
         <==> |writes| - |old(writes)| == RowsTouched(offset, count)
      ensures rc == WISE_OK <==> Finishes(answers, |rows|, old(calls), offset / 32, RowsTouched(offset, count))
      ensures |writes| - |old(writes)| == RowsTouched(offset, count) ==>
                calls == old(calls) + 2 * RowsTouched(offset, count)
                && offset / 32 + RowsTouched(offset, count) <= |rows|
      ensures |writes| - |old(writes)| != RowsTouched(offset, count) ==>
                !SavesRow(answers, |rows|, old(calls), offset / 32, |writes| - |old(writes)|)
    {
      ghost var first, all := offset / 32, RowsTouched(offset, count);
      var ok;
      ghost var k;
      ok, k := SaveRows(offset, count, e, first, all);
      assert |writes| - |old(writes)| == k;
      if !ok { SavesFewer(answers, |rows|, old(calls), first, k + 1, all); }
      rc := if last != 0 then WISE_ERR_IOCTL else WISE_OK;
    }

    /** scm_efuse_write: ORs the given bits in; all others are unchanged. */
    method Write(available: bool, offset: nat, count: nat, val: array<nat>) returns (rc: int)
      requires count <= 8 * val.Length
      modifies this
      ensures !available ==> rc == WISE_ERR_NOT_FOUND && rows == old(rows) && writes == old(writes)
      ensures available ==> rc == WISE_OK || rc == WISE_ERR_IOCTL
      ensures available ==>
                RowsDone(old(rows), old(writes), rows, writes, offset, count, OrIn(val[..]), |writes| - |old(writes)|)
      ensures available ==>
                (rc == WISE_OK <==> Finishes(answers, |rows|, old(calls), offset / 32, RowsTouched(offset, count)))
      ensures rc == WISE_OK ==> calls == old(calls) + 2 * RowsTouched(offset, count)
      ensures |rows| == |old(rows)|
      ensures available && Saves(answers, |rows|, old(calls), offset / 32, RowsTouched(offset, count)) ==>
                OredIn(old(rows), rows, offset, count, val[..])
    {
      if !available { return WISE_ERR_NOT_FOUND; }
      ghost var e := OrIn(val[..]);
      rc := Modify(offset, count, OrIn(val[..]));
      if |writes| - |old(writes)| == RowsTouched(offset, count) {
        forall n | 0 <= n < 32 * |rows| ensures DeviceBit(rows, n) <==> Wanted(old(rows), offset, count, e, n) {
          AllRowsDone(old(rows), old(writes), rows, writes, offset, count, e, n);
        }
      }
    }

    /** scm_efuse_clr_buffer: refused in raw mode; otherwise clears the addressed bits and
        leaves all others unchanged. */
    method Clear(available: bool, modeRead: bool, rawMode: bool, offset: nat, count: nat) returns (rc: int)
      modifies this
      ensures !available ==> rc == WISE_ERR_NOT_FOUND && rows == old(rows)
      ensures available && (!modeRead || rawMode) ==> rc == WISE_ERR_INVALID_STATE && rows == old(rows)
      ensures available && modeRead && !rawMode ==>
                (rc == WISE_OK || rc == WISE_ERR_IOCTL)
                && RowsDone(old(rows), old(writes), rows, writes, offset, count, ClearAll, |writes| - |old(writes)|)
                && (rc == WISE_OK <==> Finishes(answers, |rows|, old(calls), offset / 32, RowsTouched(offset, count)))
      ensures rc == WISE_OK ==> calls == old(calls) + 2 * RowsTouched(offset, count)
      ensures |rows| == |old(rows)|
      ensures available && modeRead && !rawMode
              && Saves(answers, |rows|, old(calls), offset / 32, RowsTouched(offset, count)) ==>
                Cleared(old(rows), rows, offset, count)
    {
      if !available { return WISE_ERR_NOT_FOUND; }
      if !modeRead || rawMode { return WISE_ERR_INVALID_STATE; }
      rc := Modify(offset, count, ClearAll);
      if |writes| - |old(writes)| == RowsTouched(offset, count) {
        forall n | 0 <= n < 32 * |rows| ensures DeviceBit(rows, n) <==> Wanted(old(rows), offset, count, ClearAll, n) {
          AllRowsDone(old(rows), old(writes), rows, writes, offset, count, ClearAll, n);
        }
      }
    }
  }

  /** A concrete case of a positive last status: the bit is in the device, and the write
      is reported as an error. */
  method WrittenButReported() returns (dev: Device, rc: int)
    ensures rc == WISE_ERR_IOCTL && dev.rows == [[1, 0, 0, 0]]
  {
    dev := new Device([[0, 0, 0, 0]], _ => 1);
    ghost var was := dev.rows;
    var val := new nat[1](_ => 1);
    rc := dev.Write(true, 0, 1, val);
    assert Saves(dev.answers, 1, 0, 0, 1);
    OneBitRow(was, dev.rows, val[..]);
  }

  lemma OneBitRow(was: seq<Row>, now: seq<Row>, val: seq<nat>)
    requires was == [[0, 0, 0, 0]] && val == [1] && OredIn(was, now, 0, 1, val)
    ensures now == [[1, 0, 0, 0]]
  {
    var want: Row := [1, 0, 0, 0];
    forall k | 0 <= k < 4 ensures now[0][k] == want[k] {
      forall b | 0 <= b < 8 ensures Bit(now[0][k], b) <==> Bit(want[k], b) {
        SplitByte(k, b);
        BitOfRow(now, 0, 8 * k + b);
        BitOfRow(was, 0, 8 * k + b);
        ZeroBit(b);
        if k == 0 { OneBit(b); }
      }
      SameBits(now[0][k], want[k], 8);
    }
    assert now[0] == want;
  }

  lemma OneBit(b: nat)
    ensures Bit(1, b) <==> b == 0
  {
    if b > 0 { ZeroBit(b - 1); }
  }

  lemma AscendingMore(first: nat, n: nat)
    ensures Ascending(first, n) + [first + n] == Ascending(first, n + 1)
  {
  }

  /** Applies the edit to one bit of the row's copy. */
  method EditBit(ghost was: seq<Row>, ghost row: nat, cell: Row, ghost offset: nat, ghost count: nat, e: Edit,
                 w: Walk, ghost limit: nat, ghost limit': nat)
    returns (r: Row)
    requires Covers(e, count) && w.row == row < |was| && Walking(offset, count, w) && w.i < count
    requires limit == offset + w.i && limit' == limit + 1 && RowEditedTo(was, row, cell, offset, count, e, limit)
    ensures RowEditedTo(was, row, r, offset, count, e, limit')
  {
    ghost var p := 8 * w.startByte + w.startBit;
    SplitByte(w.resultByte, w.resultBit);
    SplitByte(w.startByte, w.startBit);
    WithBitExact(cell, p, e.OrIn?);
    r := cell;
    match e {
      case OrIn(val) =>
        AndPow2(val[w.resultByte], w.resultBit);
        if And(val[w.resultByte], Pow2(w.resultBit)) != 0 {
          r := cell[w.startByte := Or(cell[w.startByte], Pow2(w.startBit))];
        }
      case ClearAll =>
        r := cell[w.startByte := AndNot(cell[w.startByte], Pow2(w.startBit))];
    }
    EditOne(was, row, cell, r, offset, count, e, p);
  }
}
