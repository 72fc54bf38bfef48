/** print_hex_dump of kernel/console.c. */
module HexPrinter {
  import opened Bits
  import opened DumpLines
  import opened HexDump
  import opened Wrappers

  /** The offset of row k. */
  function RowOffset(k: nat, rowsize: int): nat {
    if RowSize(rowsize) == 16 then 16 * k else 32 * k
  }

  /** Label k is the address or offset of row k. */
  ghost predicate Labelled(labels: seq<string>, kind: PrefixType, address: int, rowsize: int, k: nat) {
    k < |labels| && labels[k] == Label(kind, address + RowOffset(k, rowsize), RowOffset(k, rowsize))
  }

  /** The rows of the dump up to offset i. */
  ghost predicate RowsUpTo(buf: seq<nat>, rowsize: int, groupsize: nat, i: nat, rows: seq<string>) {
    && i == RowOffset(|rows|, rowsize)
    && IsBytes(buf) && IsBytes(RestFrom(buf, i))
    && rows + Rows(RestFrom(buf, i), rowsize, groupsize) == Rows(buf, rowsize, groupsize)
  }

  /** The lines of these rows: each behind the prefix and its label. */
  ghost predicate LinesOf(lines: seq<string>, labels: seq<string>, rows: seq<string>, prefix: Option<string>,
                          kind: PrefixType, address: int, rowsize: int)
  {
    && |labels| == |rows|
    && lines == Assemble(PrefixText(prefix), labels, rows)
    && forall k {:trigger Labelled(labels, kind, address, rowsize, k)} ::
         0 <= k < |labels| ==> Labelled(labels, kind, address, rowsize, k)
  }

  lemma FirstRow(buf: seq<nat>, rowsize: int, groupsize: nat, rows: seq<string>)
    requires IsBytes(buf) && rows == []
    ensures RowsUpTo(buf, rowsize, groupsize, 0, rows)
  {
    assert RestFrom(buf, 0) == buf;
    var all := Rows(buf, rowsize, groupsize);
    assert [] + all == all;
  }

  lemma LastRow(buf: seq<nat>, rowsize: int, groupsize: nat, i: nat, rows: seq<string>)
    requires RowsUpTo(buf, rowsize, groupsize, i, rows) && i >= |buf|
    ensures rows == Rows(buf, rowsize, groupsize) && DecodeRows(rows) == buf
  {
    assert rows + [] == rows;
    RowsReadBack(buf, rowsize, groupsize);
  }

  /** The next row. */
  method PrintRowAt(buf: seq<nat>, rowsize: int, groupsize: nat, ascii: bool, i: nat, next: nat, linelen: nat,
                    ghost rows: seq<string>)
    returns (row: string)
    requires RowsUpTo(buf, rowsize, groupsize, i, rows) && i < |buf| && next == i + RowSize(rowsize)
    requires linelen == if |buf| - i < RowSize(rowsize) then |buf| - i else RowSize(rowsize)
    ensures RowsUpTo(buf, rowsize, groupsize, next, rows + [row])
  {
    NextChunk(buf, i, linelen, RowSize(rowsize));
    var chunk := buf[i..i + linelen];
    row := PrintRow(chunk, rowsize, groupsize, ascii);
    NextRow(rows, rows + [row], RestFrom(buf, i), RestFrom(buf, next), chunk, row, rowsize, groupsize);
    NextOffset(i, |rows|, |rows + [row]|, next, rowsize);
  }

  lemma NextOffset(i: nat, n: nat, n': nat, next: nat, rowsize: int)
    requires i == RowOffset(n, rowsize) && n' == n + 1 && next == i + RowSize(rowsize)
    ensures next == RowOffset(n', rowsize)
  {
  }

  function RestFrom(buf: seq<nat>, i: nat): seq<nat> {
    if i < |buf| then buf[i..] else []
  }

  lemma NextChunk(buf: seq<nat>, i: nat, n: nat, size: nat)
    requires i < |buf| && n == if |buf| - i < size then |buf| - i else size
    ensures buf[i..i + n] == RestFrom(buf, i)[..n] && RestFrom(buf, i)[n..] == RestFrom(buf, i + size)
  {
  }

  /** The line of the next row. */
  method PrintLineAt(prefix: Option<string>, kind: PrefixType, address: int, i: nat, rowsize: int, row: string,
                     lines: seq<string>, ghost labels: seq<string>, ghost rows: seq<string>, ghost mark: string)
    returns (lines': seq<string>)
    requires i == RowOffset(|rows|, rowsize) && mark == Label(kind, address + i, i)
    requires LinesOf(lines, labels, rows, prefix, kind, address, rowsize)
    ensures LinesOf(lines', labels + [mark], rows + [row], prefix, kind, address, rowsize)
  {
    var line := PrintLine(kind, prefix, address + i, i, row, mark);
    lines' := lines + [line];
    AssembleOne(PrefixText(prefix), labels, rows, mark, row);
    NextLabel(labels, kind, address, rowsize, i, mark);
  }

  lemma NextLabel(labels: seq<string>, kind: PrefixType, address: int, rowsize: int, i: nat, mark: string)
    requires i == RowOffset(|labels|, rowsize) && mark == Label(kind, address + i, i)
    requires forall k {:trigger Labelled(labels, kind, address, rowsize, k)} ::
               0 <= k < |labels| ==> Labelled(labels, kind, address, rowsize, k)
    ensures forall k {:trigger Labelled(labels + [mark], kind, address, rowsize, k)} ::
              0 <= k < |labels + [mark]| ==> Labelled(labels + [mark], kind, address, rowsize, k)
  {
    forall k | 0 <= k < |labels + [mark]| ensures Labelled(labels + [mark], kind, address, rowsize, k) {
      if k < |labels| {
        SameLabel(labels, labels + [mark], kind, address, rowsize, k);
      } else {
        LastLabel(labels + [mark], kind, address, rowsize, k, i);
      }
    }
  }

  lemma SameLabel(labels: seq<string>, labels': seq<string>, kind: PrefixType, address: int, rowsize: int, k: nat)
    requires Labelled(labels, kind, address, rowsize, k) && k < |labels'| && labels'[k] == labels[k]
    ensures Labelled(labels', kind, address, rowsize, k)
  {
  }

  lemma LastLabel(labels: seq<string>, kind: PrefixType, address: int, rowsize: int, k: nat, i: nat)
    requires k < |labels| && i == RowOffset(k, rowsize) && labels[k] == Label(kind, address + i, i)
    ensures Labelled(labels, kind, address, rowsize, k)
  {
  }

  lemma NextRow(rows: seq<string>, rows': seq<string>, rest: seq<nat>, rest': seq<nat>, chunk: seq<nat>, row: string,
                rowsize: int, groupsize: nat)
    requires IsBytes(rest) && rest != [] && |chunk| == RowLength(|rest|, rowsize)
    requires chunk == rest[..|chunk|] && rest' == rest[|chunk|..]
    requires row == RowText(chunk, rowsize, groupsize) && rows' == rows + [row]
    ensures IsBytes(rest')
    ensures rows' + Rows(rest', rowsize, groupsize) == rows + Rows(rest, rowsize, groupsize)
  {
    RowAndRest(rest, |chunk|, rowsize, groupsize);
    Shift(rows, row, Rows(rest', rowsize, groupsize));
  }

  lemma RowAndRest(rest: seq<nat>, n: nat, rowsize: int, groupsize: nat)
    requires IsBytes(rest) && rest != [] && n == RowLength(|rest|, rowsize)
    ensures Rows(rest, rowsize, groupsize)
         == [RowText(rest[..n], rowsize, groupsize)] + Rows(rest[n..], rowsize, groupsize)
  {
  }

  lemma Shift(a: seq<string>, x: string, b: seq<string>)
    ensures (a + [x]) + b == a + ([x] + b)
  {
  }

  /** print_hex_dump of the bytes at `address`: a line for each row, with the prefix and the
      row's address or offset; the rows decode back to the input. */
  method PrintHexDump(prefix: Option<string>, kind: PrefixType, buf: seq<nat>, address: int,
                      rowsize: int, groupsize: nat, ascii: bool)
    returns (lines: seq<string>)
    requires IsBytes(buf)
    ensures exists labels ::
              LinesOf(lines, labels, Rows(buf, rowsize, groupsize), prefix, kind, address, rowsize)
    ensures DecodeRows(Rows(buf, rowsize, groupsize)) == buf
  {
    var size := RowSize(rowsize);
    var i, remaining := 0, |buf|;
    lines := [];
    ghost var labels: seq<string>, rows: seq<string> := [], [];
    FirstRow(buf, rowsize, groupsize, rows);
    while i < |buf|
      invariant 0 <= i && remaining == |buf| - i
      invariant RowsUpTo(buf, rowsize, groupsize, i, rows)
      invariant LinesOf(lines, labels, rows, prefix, kind, address, rowsize)
      decreases |buf| - i
    {
      var linelen, next := if remaining < size then remaining else size, i + size;
      remaining := remaining - size;
      var row := PrintRowAt(buf, rowsize, groupsize, ascii, i, next, linelen, rows);
      ghost var mark := Label(kind, address + i, i);
      lines := PrintLineAt(prefix, kind, address, i, rowsize, row, lines, labels, rows, mark);
      labels, rows, i := labels + [mark], rows + [row], next;
    }
    LastRow(buf, rowsize, groupsize, i, rows);
  }
}
