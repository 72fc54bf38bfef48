/** hex_dump_to_buffer and print_hex_dump of kernel/console.c. */
module HexDump {
  import opened Bits
  import opened Numbers
  import opened Printf
  import opened Wrappers

  const LINEBUF_SIZE := 131

  // ----- Texts joined by blanks -----

  function Separator(n: nat): string {
    if n <= 1 then "" else " "
  }

  /** The first n texts, separated by blanks. */
  function Join(ts: seq<string>, n: nat): string
    requires n <= |ts|
  {
    if n == 0 then "" else Join(ts, n - 1) + (Separator(n) + ts[n - 1])
  }

  predicate Uniform(ts: seq<string>, k: nat) {
    forall i :: 0 <= i < |ts| ==> |ts[i]| == k
  }

  lemma {:induction false} JoinPrefix(ts: seq<string>, m: nat, n: nat)
    requires m <= n <= |ts|
    ensures Join(ts, m) <= Join(ts, n)
    decreases n
  {
    if m == n {
    } else {
      JoinPrefix(ts, m, n - 1);
    }
  }

  /** n texts of k characters and the blanks between them. */
  lemma {:induction false} JoinLength(ts: seq<string>, n: nat, k: nat)
    requires n <= |ts| && Uniform(ts, k)
    ensures |Join(ts, n)| == if n == 0 then 0 else (k + 1) * n - 1
  {
    if n == 0 {
    } else {
      JoinLength(ts, n - 1, k);
      assert (k + 1) * n == (k + 1) * (n - 1) + (k + 1);
    }
  }

  // ----- Groups of bytes -----

  /** One group of bytes as a number: the last byte comes first. */
  function GroupText(bs: seq<nat>): (s: string)
    requires IsBytes(bs)
    ensures |s| == 2 * |bs|
  {
    if bs == [] then "" else GroupText(bs[1..]) + ByteText(bs[0])
  }

  function ByteText(b: nat): string
    requires b < 256
  {
    [DigitChar(b / 16, false), DigitChar(b % 16, false)]
  }

  predicate GroupSize(g: nat) {
    g == 1 || g == 2 || g == 4
  }

  /** n groups in bytes. */
  function Span(n: nat, g: nat): nat {
    if g == 1 then n else if g == 2 then 2 * n else 4 * n
  }

  /** The groups in len bytes. */
  function GroupCount(len: nat, g: nat): nat {
    if g == 1 then len else if g == 2 then len / 2 else len / 4
  }

  function Group(bs: seq<nat>, g: nat, i: nat): seq<nat>
    requires Span(i + 1, g) <= |bs|
  {
    bs[Span(i, g)..Span(i + 1, g)]
  }

  /** The texts of the first n groups. */
  function GroupTexts(bs: seq<nat>, g: nat, n: nat): (ts: seq<string>)
    requires IsBytes(bs) && GroupSize(g) && Span(n, g) <= |bs|
    ensures |ts| == n
    ensures forall i :: 0 <= i < n ==> ts[i] == GroupText(Group(bs, g, i))
  {
    seq(n, i requires 0 <= i < n => GroupText(Group(bs, g, i)))
  }

  /** ts are the texts of the groups of bs. */
  predicate TextsOf(bs: seq<nat>, g: nat, ts: seq<string>) {
    && IsBytes(bs) && GroupSize(g) && Span(|ts|, g) == |bs|
    && forall i {:trigger Group(bs, g, i)} :: 0 <= i < |ts| ==> ts[i] == GroupText(Group(bs, g, i))
  }

  // ----- Parameters -----

  function RowSize(rowsize: int): nat {
    if rowsize != 16 && rowsize != 32 then 16 else rowsize
  }

  /** Rows hold 16 bytes, or 32 if asked for. */
  lemma RowLengthExact(len: nat, rowsize: int)
    ensures RowSize(rowsize) == if rowsize == 32 then 32 else 16
    ensures RowLength(len, rowsize) == if rowsize == 32 then (if len < 32 then len else 32)
                                       else (if len < 16 then len else 16)
  {
  }

  predicate IsPowerOfTwo(n: nat) {
    n != 0 && And(n, n - 1) == 0
  }

  function GroupFor(groupsize: nat, len: nat): nat {
    if !IsPowerOfTwo(groupsize) || groupsize > 8 then 1
    else if len % groupsize != 0 then 1
    else if groupsize > 4 then 4
    else groupsize
  }

  /** The group size used is 1, 2 or 4 and divides the length; sizes 1, 2, 4 and 8 that
      divide the length are honoured, 8 as 4. */
  lemma GroupForExact(groupsize: nat, len: nat)
    ensures GroupSize(GroupFor(groupsize, len))
    ensures len == Span(GroupCount(len, GroupFor(groupsize, len)), GroupFor(groupsize, len))
    ensures GroupCount(len, GroupFor(groupsize, len)) == len / GroupFor(groupsize, len)
    ensures GroupSize(groupsize) && len % groupsize == 0 ==> GroupFor(groupsize, len) == groupsize
    ensures groupsize == 8 && len % 8 == 0 ==> GroupFor(groupsize, len) == 4
  {
    SmallPowers(groupsize);
    EightIsTwoFours(len);
    var g := GroupFor(groupsize, len);
    if groupsize == 2 {
      assert g == if len % 2 != 0 then 1 else 2;
    } else if groupsize == 4 {
      assert g == if len % 4 != 0 then 1 else 4;
    } else if groupsize == 8 {
      assert g == if len % 8 != 0 then 1 else 4;
    } else {
      assert g == 1;
    }
    WholeGroups(len, g);
  }

  lemma EightIsTwoFours(len: nat)
    ensures len % 8 == 0 ==> len % 4 == 0
  {
  }

  lemma WholeGroups(len: nat, g: nat)
    requires g == 1 || (g == 2 && len % 2 == 0) || (g == 4 && len % 4 == 0)
    ensures GroupCount(len, g) == len / g && len == Span(GroupCount(len, g), g)
  {
  }

  lemma SmallPowers(n: nat)
    ensures n <= 8 ==> (IsPowerOfTwo(n) <==> n == 1 || n == 2 || n == 4 || n == 8)
  {
    if n == 3 { OddIsNot(3); }
    if n == 5 { OddIsNot(5); }
    if n == 7 { OddIsNot(7); }
    if n == 6 { assert And(6, 5) == 2 * And(3, 2); OddIsNot(3); }
    if n == 4 { assert And(4, 3) == 2 * And(2, 1); }
    if n == 8 { assert And(8, 7) == 2 * And(4, 3) && And(4, 3) == 2 * And(2, 1); }
  }

  lemma OddIsNot(n: nat)
    requires n % 2 == 1 && n > 1
    ensures And(n, n - 1) != 0
  {
    assert And(n, n - 1) == 2 * And(n / 2, n / 2);
    AndSelf(n / 2);
  }

  lemma {:induction false} AndSelf(n: nat)
    ensures And(n, n) == n
  {
    if n == 0 {
    } else {
      AndSelf(n / 2);
    }
  }

  // ----- What a row should be -----

  function RowLength(len: nat, rowsize: int): nat {
    if len > RowSize(rowsize) then RowSize(rowsize) else len
  }

  /** The whole text of a row. */
  function RowText(buf: seq<nat>, rowsize: int, groupsize: nat): string
    requires IsBytes(buf)
  {
    var len := RowLength(|buf|, rowsize);
    var g := GroupFor(groupsize, len);
    GroupForExact(groupsize, len);
    Join(GroupTexts(buf[..len], g, GroupCount(len, g)), GroupCount(len, g))
  }

  /** What an overflow exit returns. */
  function OverflowResult(rowsize: nat, g: nat, len: nat, ascii: bool): int
    requires g > 0
  {
    if ascii then rowsize * 2 + rowsize / g + 1 + len else (g * 2 + 1) * (len / g) - 1
  }

  /** Whether an exit through one of the overflow labels is taken. */
  predicate Overflows(full: int, g: nat, linebuflen: nat, len: nat) {
    linebuflen == 0 || (len > 0 && if g == 1 then linebuflen < full + 2 else linebuflen <= full)
  }

  /** The buffer holds as much of the text as fits, then NUL. */
  predicate HoldsPrefix(line: seq<char>, size: nat, text: string) {
    && 1 <= size <= |line|
    && var k := if |text| < size then |text| else size - 1;
       line[..k] == text[..k] && line[k] == NUL
  }

  // ----- One row into the buffer -----

  /** The first lx characters of the line are `text`. */
  predicate Written(line: array<char>, size: nat, lx: nat, text: string)
    reads line
  {
    lx == |text| < size <= line.Length && line[..lx] == text
  }

  method PutOne(line: array<char>, size: nat, lx: nat, ghost text: string, c: char)
    requires Written(line, size, lx, text) && lx + 2 <= size
    modifies line
    ensures Written(line, size, lx + 1, text + [c])
    ensures forall i :: size <= i < line.Length ==> line[i] == old(line[i])
  {
    line[lx] := c;
    assert line[..lx + 1] == line[..lx] + [c];
  }

  /** The label overflow2: the text so far fills the buffer up to the NUL. */
  method Terminate(line: array<char>, size: nat, lx: nat, ghost text: string, ghost full: string)
    requires Written(line, size, lx, text) && text <= full && (lx == size - 1 || text == full)
    modifies line
    ensures HoldsPrefix(line[..], size, full)
    ensures forall i :: size <= i < line.Length ==> line[i] == old(line[i])
  {
    line[lx] := NUL;
    assert line[..][..lx] == text == full[..lx];
  }

  /** The text before byte j is written: the bytes so far, each with a blank after it. */
  function Spaced(ts: seq<string>, j: nat): string
    requires j <= |ts|
  {
    if j == 0 then "" else Join(ts, j) + " "
  }

  lemma SpacedStep(ts: seq<string>, j: nat, hi: char, lo: char)
    requires j < |ts| && ts[j] == [hi, lo]
    ensures Spaced(ts, j) + [hi] + [lo] == Join(ts, j + 1)
    ensures Spaced(ts, j) + [hi] <= Join(ts, j + 1)
    ensures Spaced(ts, j) <= Join(ts, j + 1)
  {
  }

  lemma PrefixTransitive(a: string, b: string, c: string)
    requires a <= b <= c
    ensures a <= c
  {
  }

  /** One byte of the loop for group size 1: two digits and a blank, each only if there is
      room for it and the NUL. */
  method DumpByte(line: array<char>, size: nat, lx: nat, b: nat, ghost ts: seq<string>, ghost j: nat,
                  ghost full: string)
    returns (fits: bool)
    requires j < |ts| && b < 256 && ts[j] == ByteText(b) && full == Join(ts, |ts|)
    requires Written(line, size, lx, Spaced(ts, j))
    modifies line
    ensures fits <==> lx + 3 < size
    ensures fits ==> Written(line, size, lx + 3, Spaced(ts, j + 1))
    ensures !fits ==> HoldsPrefix(line[..], size, full)
    ensures forall i :: size <= i < line.Length ==> line[i] == old(line[i])
  {
    ghost var t := Spaced(ts, j);
    var hi, lo := DigitChar(b / 16, false), DigitChar(b % 16, false);
    SpacedStep(ts, j, hi, lo);
    JoinPrefix(ts, j + 1, |ts|);
    ghost var next := Join(ts, j + 1);
    PrefixTransitive(t, next, full);
    PrefixTransitive(t + [hi], next, full);
    if size < lx + 2 {
      Terminate(line, size, lx, t, full);
      return false;
    }
    PutOne(line, size, lx, t, hi);
    if size < lx + 1 + 2 {
      Terminate(line, size, lx + 1, t + [hi], full);
      return false;
    }
    PutOne(line, size, lx + 1, t + [hi], lo);
    if size < lx + 2 + 2 {
      Terminate(line, size, lx + 2, next, full);
      return false;
    }
    PutOne(line, size, lx + 2, next, ' ');
    return true;
  }

  /** The loop for group size 1. */
  method DumpBytes(bs: seq<nat>, line: array<char>, size: nat, ghost ts: seq<string>) returns (fits: bool, lx: nat)
    requires IsBytes(bs) && Written(line, size, 0, "")
    requires |ts| == |bs| && forall i :: 0 <= i < |bs| ==> ts[i] == ByteText(bs[i])
    modifies line
    ensures fits ==> lx == 3 * |bs| && Written(line, size, lx, Spaced(ts, |ts|))
    ensures !fits ==> HoldsPrefix(line[..], size, Join(ts, |ts|)) && size <= 3 * |bs|
    ensures forall i :: size <= i < line.Length ==> line[i] == old(line[i])
  {
    lx := 0;
    fits := true;
    ghost var full := Join(ts, |ts|);
    for j := 0 to |bs|
      invariant fits && lx == 3 * j && Written(line, size, lx, Spaced(ts, j))
      invariant forall i :: size <= i < line.Length ==> line[i] == old(line[i])
    {
      assert ts[j] == ByteText(bs[j]);
      fits := DumpByte(line, size, lx, bs[j], ts, j, full);
      if !fits { return; }
      lx := lx + 3;
    }
  }

  // ----- Groups of two and four bytes -----

  /** k hexadecimal digits, with leading zeros. */
  function FixedHex(v: nat, k: nat): (s: string)
    ensures |s| == k
  {
    if k == 0 then "" else FixedHex(v / 16, k - 1) + [DigitChar(v % 16, false)]
  }

  lemma {:induction false} ZeroHex(k: nat)
    ensures FixedHex(0, k) == Repeat('0', k)
  {
    if k == 0 {
    } else {
      ZeroHex(k - 1);
      RepeatLast('0', k);
    }
  }

  /** Zero padding in front of the digits gives the fixed number of digits. */
  lemma {:induction false} PaddedDigits(v: nat, k: nat)
    requires k >= 1 && v < Pow2(4 * k)
    ensures var d := Digits(v, 16, false); |d| <= k && Repeat('0', k - |d|) + d == FixedHex(v, k)
  {
    if v / 16 == 0 {
      ZeroHex(k - 1);
    } else {
      LessByADigit(v, k);
      PaddedDigits(v / 16, k - 1);
      var d, e := Digits(v, 16, false), Digits(v / 16, 16, false);
      assert d == e + [DigitChar(v % 16, false)];
      Assoc(Repeat('0', k - |d|), e, [DigitChar(v % 16, false)]);
    }
  }

  lemma LessByADigit(v: nat, k: nat)
    requires k >= 1 && 16 <= v < Pow2(4 * k)
    ensures k >= 2 && v / 16 < Pow2(4 * (k - 1))
  {
    assert Pow2(4) == 16;
    if k > 1 { Pow2Sum(4, 4 * (k - 1)); }
  }

  lemma {:induction false} GroupIsHex(bs: seq<nat>)
    requires IsBytes(bs)
    ensures GroupText(bs) == FixedHex(LittleEndian(bs), 2 * |bs|)
  {
    if bs == [] {
    } else {
      GroupIsHex(bs[1..]);
      var v, b, rest := LittleEndian(bs), bs[0], LittleEndian(bs[1..]);
      assert v / 16 / 16 == rest && v / 16 % 16 == b / 16 && v % 16 == b % 16;
      Assoc(FixedHex(rest, 2 * |bs| - 2), [DigitChar(b / 16, false)], [DigitChar(b % 16, false)]);
      assert ByteText(b) == [DigitChar(b / 16, false)] + [DigitChar(b % 16, false)];
    }
  }

  /** A field of k places with precision k. */
  lemma ExactField(num: nat, k: nat)
    requires |Digits(num, 16, false)| <= k
    ensures var d := Digits(num, 16, false);
            NumberField(num, false, 16, false, Layout(k, k, false, false, false)) == Repeat('0', k - |d|) + d
  {
  }

  /** The number field %8.8x or %4.4x makes of a group. */
  lemma GroupField(bs: seq<nat>, v: nat, k: nat)
    requires IsBytes(bs) && |bs| >= 1 && v == LittleEndian(bs) && k == 2 * |bs|
    ensures v < Pow2(4 * k)
    ensures NumberField(v, false, 16, false, Layout(k, k, false, false, false)) == GroupText(bs)
  {
    LittleEndianBound(bs);
    assert 8 * |bs| == 4 * k;
    PaddedDigits(v, k);
    ExactField(v, k);
    GroupIsHex(bs);
  }

  const FORMAT_4 := "%s%8.8x"
  const FORMAT_2 := "%s%4.4x"

  predicate PieceFormats(fmt: string, k: nat) {
    (k == 8 && fmt == FORMAT_4) || (k == 4 && fmt == FORMAT_2)
  }

  function FieldSpec(k: nat): Spec {
    FRESH.(width := k, dot := true, dwidth := k)
  }

  lemma ReadField(fmt: string, k: nat, args: seq<Arg>)
    requires PieceFormats(fmt, k)
    ensures ReadDirective(fmt, 3, FRESH, args) == Directive(FieldSpec(k), 'x', 7, args)
  {
    var sp := FRESH.(width := k);
    assert ReadDirective(fmt, 6, FieldSpec(k), args) == Directive(FieldSpec(k), 'x', 7, args);
    assert ScanEnd(fmt, 6) == 6 && ScanEnd(fmt, 5) == 6;
    assert ScanNumber(fmt, 6, k) == k && ScanNumber(fmt, 5, 0) == k;
    assert Flag(sp.(dot := true), fmt[5]) == None && fmt[5] != '*' && IsDigit(fmt[5]);
    assert ReadDirective(fmt, 5, sp.(dot := true), args) == ReadDirective(fmt, 6, FieldSpec(k), args);
    assert Flag(sp, fmt[4]) == Some(sp.(dot := true));
    assert ReadDirective(fmt, 4, sp, args) == ReadDirective(fmt, 5, sp.(dot := true), args);
    assert ScanEnd(fmt, 4) == 4 && ScanEnd(fmt, 3) == 4;
    assert ScanNumber(fmt, 4, k) == k && ScanNumber(fmt, 3, 0) == k;
  }

  lemma SecondPiece(fmt: string, k: nat, v: nat)
    requires PieceFormats(fmt, k) && v < 0x1_0000_0000
    ensures Format(fmt, 2, [Int(v)], 10)
         == Some(NumberField(v, false, 16, false, Layout(k, k, false, false, false)))
  {
    var args := [Int(v)];
    var d := Directive(FieldSpec(k), 'x', 7, args);
    var field := NumberField(v, false, 16, false, Layout(k, k, false, false, false));
    ReadField(fmt, k, args);
    assert NextInt(args) == v && Printed('x', FieldSpec(k), v) == v;
    assert Convert(d, 10) == field;
    assert Format(fmt, 7, ArgsAfter(d), 10) == Some("");
    assert field + "" == field;
  }

  /** What snprintf is asked to print for a group. */
  lemma PieceFormat(sep: string, v: nat, k: nat, fmt: string)
    requires PieceFormats(fmt, k) && v < 0x1_0000_0000
    ensures Format(fmt, 0, [Str(sep), Int(v)], 10)
         == Some(sep + NumberField(v, false, 16, false, Layout(k, k, false, false, false)))
  {
    var args := [Str(sep), Int(v)];
    var d := ReadDirective(fmt, 1, FRESH, args);
    assert d == Directive(FRESH, 's', 2, args);
    assert Repeat(' ', -|sep|) == "" && "" + sep == sep;
    assert Convert(d, 10) == sep;
    assert ArgsAfter(d) == [Int(v)];
    SecondPiece(fmt, k, v);
  }

  /** snprintf at an offset of the line, as the C library defines it. */
  method PutText(line: array<char>, at: nat, room: nat, text: string) returns (ret: nat)
    requires 1 <= room && at + room <= line.Length
    modifies line
    ensures ret == |text|
    ensures var k := if |text| < room then |text| else room - 1;
            line[..at + k] == old(line[..at]) + text[..k] && line[at + k] == NUL
    ensures forall i :: at + room <= i < line.Length ==> line[i] == old(line[i])
  {
    var k := if |text| < room then |text| else room - 1;
    forall i | 0 <= i < k { line[at + i] := text[i]; }
    line[at + k] := NUL;
    assert line[..at + k] == old(line[..at]) + text[..k];
    ret := |text|;
  }

  /** The piece printed for a group, by the kernel's own formatter. */
  method GroupPiece(bs: seq<nat>, g: nat, j: nat, ghost ts: seq<string>) returns (piece: string)
    requires (g == 2 || g == 4) && TextsOf(bs, g, ts) && j < |ts|
    ensures piece == Separator(j + 1) + ts[j]
  {
    var group := Group(bs, g, j);
    var v := LittleEndian(group);
    var fmt := if g == 4 then FORMAT_4 else FORMAT_2;
    var sep := if j != 0 then " " else "";
    GroupField(group, v, 2 * g);
    GroupFits(v, 2 * g);
    PieceFormat(sep, v, 2 * g, fmt);
    var n;
    piece, n := Kvprintf(Some(fmt), [Str(sep), Int(v)], 10);
  }

  /** Prints the next piece of the dump behind what is there. */
  method PutPiece(line: array<char>, size: nat, lx: nat, piece: string, ghost ts: seq<string>, ghost j: nat)
    returns (fits: bool, lx': nat)
    requires j < |ts| && piece == Separator(j + 1) + ts[j]
    requires Written(line, size, lx, Join(ts, j))
    modifies line
    ensures fits <==> |Join(ts, j + 1)| < size
    ensures fits ==> Written(line, size, lx', Join(ts, j + 1))
    ensures !fits ==> HoldsPrefix(line[..], size, Join(ts, |ts|))
    ensures forall i :: size <= i < line.Length ==> line[i] == old(line[i])
  {
    ghost var done := Join(ts, j);
    var ret := PutText(line, lx, size - lx, piece);
    fits := ret < size - lx;
    lx' := lx + ret;
    if fits {
      assert line[..lx'] == done + piece;
    } else {
      JoinPrefix(ts, j + 1, |ts|);
      Truncated(line[..], size, lx, done, piece, Join(ts, |ts|));
    }
  }

  lemma GroupFits(v: nat, k: nat)
    requires (k == 4 || k == 8) && v < Pow2(4 * k)
    ensures v < 0x1_0000_0000
  {
    Pow2Of32();
    if k == 4 { Pow2Monotone(16, 32); }
  }

  lemma Truncated(line: seq<char>, size: nat, lx: nat, done: string, piece: string, full: string)
    requires lx == |done| < size <= |line| && size - lx <= |piece| && done + piece <= full
    requires line[..size - 1] == done + piece[..size - 1 - lx] && line[size - 1] == NUL
    ensures HoldsPrefix(line, size, full)
  {
  }

  /** The loops for group sizes 2 and 4. */
  method DumpGroups(bs: seq<nat>, g: nat, ngroups: nat, line: array<char>, size: nat, ghost ts: seq<string>)
    returns (fits: bool, lx: nat)
    requires (g == 2 || g == 4) && |ts| == ngroups && TextsOf(bs, g, ts)
    requires Written(line, size, 0, "")
    modifies line
    ensures fits ==> Written(line, size, lx, Join(ts, |ts|))
    ensures !fits ==> HoldsPrefix(line[..], size, Join(ts, |ts|)) && size <= |Join(ts, |ts|)|
    ensures forall i :: size <= i < line.Length ==> line[i] == old(line[i])
  {
    lx := 0;
    fits := true;
    for j := 0 to ngroups
      invariant fits && Written(line, size, lx, Join(ts, j))
      invariant forall i :: size <= i < line.Length ==> line[i] == old(line[i])
    {
      var piece := GroupPiece(bs, g, j, ts);
      fits, lx := PutPiece(line, size, lx, piece, ts, j);
      if !fits {
        JoinPrefix(ts, j + 1, |ts|);
        return;
      }
    }
  }

  lemma SingleBytes(bs: seq<nat>, ts: seq<string>)
    requires TextsOf(bs, 1, ts)
    ensures |ts| == |bs| && forall i :: 0 <= i < |bs| ==> ts[i] == ByteText(bs[i])
  {
    forall i | 0 <= i < |bs| ensures ts[i] == ByteText(bs[i]) {
      assert Group(bs, 1, i) == [bs[i]];
      assert GroupText([bs[i]]) == "" + ByteText(bs[i]) by { assert [bs[i]][1..] == []; }
    }
  }

  /** Both kinds of loop, with the exits behind them; `fits` says which exit. */
  method DumpRow(bs: seq<nat>, g: nat, ngroups: nat, line: array<char>, size: nat, ghost ts: seq<string>)
    returns (fits: bool, lx: nat)
    requires TextsOf(bs, g, ts) && |ts| == ngroups && bs != [] && 1 <= size <= line.Length
    modifies line
    ensures HoldsPrefix(line[..], size, Join(ts, |ts|))
    ensures fits ==> lx == |Join(ts, |ts|)|
    ensures fits <==> if g == 1 then 3 * |bs| < size else |Join(ts, |ts|)| < size
    ensures forall i :: size <= i < line.Length ==> line[i] == old(line[i])
  {
    assert line[..0] == "";
    if g == 1 {
      SingleBytes(bs, ts);
      fits, lx := DumpBytes(bs, line, size, ts);
      if fits {
        lx := lx - 1;
        assert line[..lx] == line[..lx + 1][..lx] == Join(ts, |ts|);
      }
    } else {
      fits, lx := DumpGroups(bs, g, ngroups, line, size, ts);
    }
    if fits { Terminate(line, size, lx, Join(ts, |ts|), Join(ts, |ts|)); }
  }

  /** The texts of a row. */
  lemma RowTexts(buf: seq<nat>, rowsize: int, groupsize: nat) returns (ts: seq<string>)
    requires IsBytes(buf)
    ensures var len := RowLength(|buf|, rowsize);
            var g := GroupFor(groupsize, len);
            && TextsOf(buf[..len], g, ts) && g > 0 && |ts| == len / g
            && RowText(buf, rowsize, groupsize) == Join(ts, |ts|)
  {
    var len := RowLength(|buf|, rowsize);
    var g := GroupFor(groupsize, len);
    GroupForExact(groupsize, len);
    ts := GroupTexts(buf[..len], g, GroupCount(len, g));
  }

  /** Their length, as the source computes it when they do not fit. */
  lemma RowTextLength(bs: seq<nat>, g: nat, ts: seq<string>)
    requires TextsOf(bs, g, ts) && g > 0 && |ts| == |bs| / g
    ensures |Join(ts, |ts|)| == if bs == [] then 0 else (g * 2 + 1) * (|bs| / g) - 1
    ensures g == 1 && bs != [] ==> |Join(ts, |ts|)| == 3 * |bs| - 1
    ensures bs != [] ==> ts != []
  {
    forall i | 0 <= i < |ts| ensures |ts[i]| == 2 * g {
      assert |Group(bs, g, i)| == g;
    }
    JoinLength(ts, |ts|, 2 * g);
    assert 2 * g == g * 2;
  }

  /** What hex_dump_to_buffer returns. */
  function RowResult(buf: seq<nat>, rowsize: int, groupsize: nat, linebuflen: nat, ascii: bool): int
    requires IsBytes(buf)
  {
    var len := RowLength(|buf|, rowsize);
    var g := GroupFor(groupsize, len);
    GroupForExact(groupsize, len);
    var full := |RowText(buf, rowsize, groupsize)|;
    if Overflows(full, g, linebuflen, len) then OverflowResult(RowSize(rowsize), g, len, ascii) else full
  }

  /** Whether that call leaves through an overflow exit. */
  predicate RowOverflows(buf: seq<nat>, rowsize: int, groupsize: nat, linebuflen: nat)
    requires IsBytes(buf)
  {
    var len := RowLength(|buf|, rowsize);
    Overflows(|RowText(buf, rowsize, groupsize)|, GroupFor(groupsize, len), linebuflen, len)
  }

  /** An overflow exit that counts the text column returns more than the row's length. */
  lemma ColumnIsMore(rowsize: nat, g: nat, len: nat)
    requires GroupSize(g) && len <= rowsize
    ensures (g * 2 + 1) * (len / g) - 1 < OverflowResult(rowsize, g, len, true)
  {
    if g == 1 {
      assert len / g == len && rowsize / g == rowsize;
    } else if g == 2 {
      assert 2 * (len / g) <= len && len / g <= rowsize / g;
    } else {
      assert 4 * (len / g) <= len && len / g <= rowsize / g;
    }
  }

  /** The result is the length of the whole text if and only if no overflow exit is taken,
      or there are bytes and the text column is not asked for. */
  lemma ResultExact(buf: seq<nat>, rowsize: int, groupsize: nat, linebuflen: nat, ascii: bool)
    requires IsBytes(buf)
    ensures RowResult(buf, rowsize, groupsize, linebuflen, ascii) == |RowText(buf, rowsize, groupsize)|
       <==> !RowOverflows(buf, rowsize, groupsize, linebuflen) || (buf != [] && !ascii)
  {
    var len := RowLength(|buf|, rowsize);
    var g := GroupFor(groupsize, len);
    GroupForExact(groupsize, len);
    var ts := RowTexts(buf, rowsize, groupsize);
    RowTextLength(buf[..len], g, ts);
    ColumnIsMore(RowSize(rowsize), g, len);
    if len == 0 { assert len / g == 0; }
  }

  /** With the text column an overflow exit returns where it would end: behind the digits and
      blanks of a full row and one more blank. */
  lemma ColumnResult(buf: seq<nat>, rowsize: int, groupsize: nat, linebuflen: nat)
    requires IsBytes(buf) && RowOverflows(buf, rowsize, groupsize, linebuflen)
    ensures var row := if rowsize == 32 then 32 else 16;
            var len := if |buf| < row then |buf| else row;
            var g := GroupFor(groupsize, len);
            g > 0 && RowResult(buf, rowsize, groupsize, linebuflen, true) == 2 * row + row / g + 1 + len
  {
    GroupForExact(groupsize, RowLength(|buf|, rowsize));
  }

  /** It fails for one byte, a buffer of one character and the text column: 50 for a text
      of two; and for no bytes and no buffer: -1 for the empty text, or 49 with the column. */
  lemma ResultExamples()
    ensures |RowText([0], 16, 1)| == 2 && RowResult([0], 16, 1, 1, true) == 50
    ensures |RowText([], 16, 1)| == 0 && RowResult([], 16, 1, 0, false) == -1
    ensures RowResult([], 16, 1, 0, true) == 49
  {
    SmallPowers(1);
    var ts := RowTexts([0], 16, 1);
    RowTextLength([0][..1], 1, ts);
    var none := RowTexts([], 16, 1);
    RowTextLength([][..0], 1, none);
  }

  /** hex_dump_to_buffer: the buffer always holds the part of the row's text that fits,
      then NUL, and nothing past it is written; and exactly when the result is the length
      of the whole text. */
  method HexDumpToBuffer(buf: seq<nat>, rowsize: int, groupsize: nat, line: array<char>, linebuflen: nat, ascii: bool)
    returns (ret: int)
    requires IsBytes(buf) && linebuflen <= line.Length
    modifies line
    ensures linebuflen > 0 ==> HoldsPrefix(line[..], linebuflen, RowText(buf, rowsize, groupsize))
    ensures forall i :: linebuflen <= i < line.Length ==> line[i] == old(line[i])
    ensures ret == RowResult(buf, rowsize, groupsize, linebuflen, ascii)
    ensures ret == |RowText(buf, rowsize, groupsize)|
       <==> !RowOverflows(buf, rowsize, groupsize, linebuflen) || (buf != [] && !ascii)
  {
    ResultExact(buf, rowsize, groupsize, linebuflen, ascii);
    var row := RowSize(rowsize);
    var len := RowLength(|buf|, rowsize);
    var g := GroupFor(groupsize, len);
    GroupForExact(groupsize, len);
    ghost var ts := RowTexts(buf, rowsize, groupsize);
    RowTextLength(buf[..len], g, ts);
    if linebuflen == 0 { return OverflowResult(row, g, len, ascii); }
    if len == 0 {
      line[0] := NUL;
      return 0;
    }
    var fits, lx := DumpRow(buf[..len], g, len / g, line, linebuflen, ts);
    ret := if fits then lx else OverflowResult(row, g, len, ascii);
    assert fits <==> !Overflows(|Join(ts, |ts|)|, g, linebuflen, len);
  }

  // ----- Reading a row back -----

  /** Where the last token starts. */
  function TokenStart(s: string): (k: nat)
    ensures k <= |s|
  {
    if s == [] || s[|s| - 1] == ' ' then |s| else TokenStart(s[..|s| - 1])
  }

  /** Pairs of hexadecimal digits; the first pair is the last byte. */
  function TokenBytes(t: string): seq<int> {
    if |t| < 2 then [] else TokenBytes(t[2..]) + [16 * DigitValue(t[0]) + DigitValue(t[1])]
  }

  function DecodeRow(s: string): seq<int> {
    if s == [] then []
    else
      var k := TokenStart(s);
      (if k == 0 then [] else DecodeRow(s[..k - 1])) + TokenBytes(s[k..])
  }

  predicate NoBlank(s: string) {
    forall i :: 0 <= i < |s| ==> s[i] != ' '
  }

  lemma {:induction false} TokenAfter(s: string, t: string)
    requires NoBlank(t) && (s == [] || s[|s| - 1] == ' ')
    ensures TokenStart(s + t) == |s|
  {
    if t == [] {
      assert s + t == s;
    } else {
      TokenAfter(s, t[..|t| - 1]);
      assert (s + t)[..|s + t| - 1] == s + t[..|t| - 1];
    }
  }

  lemma {:induction false} GroupReadsBack(bs: seq<nat>)
    requires IsBytes(bs)
    ensures TokenBytes(GroupText(bs)) == bs && NoBlank(GroupText(bs))
  {
    if bs == [] {
    } else {
      var init, last := bs[..|bs| - 1], bs[|bs| - 1];
      GroupReadsBack(init);
      LastByteFirst(bs);
      DigitCharValue(last / 16, false);
      DigitCharValue(last % 16, false);
      var s := GroupText(bs);
      assert s[2..] == GroupText(init);
      assert bs == init + [last];
    }
  }

  lemma {:induction false} LastByteFirst(bs: seq<nat>)
    requires IsBytes(bs) && bs != []
    ensures GroupText(bs) == ByteText(bs[|bs| - 1]) + GroupText(bs[..|bs| - 1])
  {
    if |bs| > 1 {
      LastByteFirst(bs[1..]);
      assert bs[1..][..|bs| - 2] == bs[..|bs| - 1][1..];
      Assoc(ByteText(bs[|bs| - 1]), GroupText(bs[..|bs| - 1][1..]), ByteText(bs[0]));
    } else {
      assert bs[1..] == [] && bs[..0] == [];
    }
  }

  /** Each text is a token that reads as its chunk. */
  ghost predicate Readable(ts: seq<string>, chunks: seq<seq<int>>) {
    && |ts| == |chunks|
    && forall i {:trigger ReadableAt(ts, chunks, i)} :: 0 <= i < |ts| ==> ReadableAt(ts, chunks, i)
  }

  ghost predicate ReadableAt(ts: seq<string>, chunks: seq<seq<int>>, i: nat) {
    && i < |ts| == |chunks|
    && NoBlank(ts[i]) && ts[i] != [] && TokenBytes(ts[i]) == chunks[i]
  }

  function Concat(chunks: seq<seq<int>>, n: nat): seq<int>
    requires n <= |chunks|
  {
    if n == 0 then [] else Concat(chunks, n - 1) + chunks[n - 1]
  }

  lemma JoinEmpty(ts: seq<string>, chunks: seq<seq<int>>, n: nat)
    requires Readable(ts, chunks) && n <= |ts|
    ensures Join(ts, n) == [] <==> n == 0
  {
    if n > 0 { assert ReadableAt(ts, chunks, n - 1); }
  }

  lemma JoinNext(ts: seq<string>, chunks: seq<seq<int>>, n: nat)
    requires Readable(ts, chunks) && n < |ts|
    ensures DecodeRow(Join(ts, n + 1)) == DecodeRow(Join(ts, n)) + chunks[n]
  {
    JoinEmpty(ts, chunks, n);
    assert ReadableAt(ts, chunks, n);
    var done, t := Join(ts, n), ts[n];
    NextToken(done, t, n + 1, done + (Separator(n + 1) + t), DecodeRow(done));
  }

  lemma {:induction false} Accumulates(ds: seq<seq<int>>, chunks: seq<seq<int>>, n: nat)
    requires |ds| == |chunks| + 1 && n <= |chunks| && ds[0] == []
    requires forall k :: 0 <= k < |chunks| ==> ds[k + 1] == ds[k] + chunks[k]
    ensures ds[n] == Concat(chunks, n)
  {
    if n == 0 {
    } else {
      Accumulates(ds, chunks, n - 1);
    }
  }

  lemma JoinReadsBack(ts: seq<string>, chunks: seq<seq<int>>)
    requires Readable(ts, chunks)
    ensures DecodeRow(Join(ts, |ts|)) == Concat(chunks, |ts|)
  {
    var ds := Decoded(ts);
    forall k | 0 <= k < |chunks| ensures ds[k + 1] == ds[k] + chunks[k] {
      DecodedNext(ts, chunks, ds, k);
    }
    Accumulates(ds, chunks, |ts|);
  }

  /** What the first k texts decode to, for each k. */
  function Decoded(ts: seq<string>): (ds: seq<seq<int>>)
    ensures |ds| == |ts| + 1
  {
    seq(|ts| + 1, k requires 0 <= k <= |ts| => DecodeRow(Join(ts, k)))
  }

  lemma DecodedNext(ts: seq<string>, chunks: seq<seq<int>>, ds: seq<seq<int>>, k: nat)
    requires Readable(ts, chunks) && k < |ts| && ds == Decoded(ts)
    ensures ds[k + 1] == ds[k] + chunks[k]
  {
    var a, b := DecodeRow(Join(ts, k)), DecodeRow(Join(ts, k + 1));
    assert ds[k] == a && ds[k + 1] == b;
    JoinNext(ts, chunks, k);
  }

  lemma {:induction false} ChunksAreBytes(bs: seq<nat>, g: nat, chunks: seq<seq<int>>, n: nat)
    requires GroupSize(g) && Span(|chunks|, g) == |bs| && n <= |chunks|
    requires forall i {:trigger Group(bs, g, i)} :: 0 <= i < |chunks| ==> chunks[i] == Group(bs, g, i)
    ensures Concat(chunks, n) == bs[..Span(n, g)]
  {
    if n == 0 {
    } else {
      ChunksAreBytes(bs, g, chunks, n - 1);
      assert chunks[n - 1] == Group(bs, g, n - 1);
    }
  }

  lemma NextToken(done: string, t: string, n: nat, s: string, shown: seq<int>)
    requires NoBlank(t) && t != [] && n >= 1 && (n == 1 <==> done == [])
    requires s == done + (Separator(n) + t) && DecodeRow(done) == shown
    ensures DecodeRow(s) == shown + TokenBytes(t)
  {
    var front := done + Separator(n);
    Assoc(done, Separator(n), t);
    TokenAfter(front, t);
    assert s[|front|..] == t;
    if n > 1 { assert s[..|front| - 1] == done; }
  }

  /** A row decodes to the bytes it shows. */
  lemma RowReadsBack(buf: seq<nat>, rowsize: int, groupsize: nat)
    requires IsBytes(buf)
    ensures DecodeRow(RowText(buf, rowsize, groupsize)) == buf[..RowLength(|buf|, rowsize)]
  {
    var len := RowLength(|buf|, rowsize);
    var ts := RowTexts(buf, rowsize, groupsize);
    TextsReadBack(buf[..len], GroupFor(groupsize, len), ts);
  }

  lemma TextsReadBack(bs: seq<nat>, g: nat, ts: seq<string>)
    requires TextsOf(bs, g, ts)
    ensures DecodeRow(Join(ts, |ts|)) == bs
  {
    var chunks := Chunks(bs, g, ts);
    JoinReadsBack(ts, chunks);
    ChunksAreBytes(bs, g, chunks, |ts|);
    assert bs[..|bs|] == bs;
  }

  lemma Chunks(bs: seq<nat>, g: nat, ts: seq<string>) returns (chunks: seq<seq<int>>)
    requires TextsOf(bs, g, ts)
    ensures Readable(ts, chunks)
    ensures forall i {:trigger Group(bs, g, i)} :: 0 <= i < |chunks| ==> chunks[i] == Group(bs, g, i)
  {
    chunks := seq(|ts|, i requires 0 <= i < |ts| => Group(bs, g, i));
    forall i | 0 <= i < |ts| ensures ReadableAt(ts, chunks, i) {
      GroupReadsBack(Group(bs, g, i));
    }
  }

  // ----- All rows -----

  lemma {:induction false} GroupNotNul(bs: seq<nat>)
    requires IsBytes(bs)
    ensures NUL !in GroupText(bs)
  {
    if bs == [] {
    } else {
      GroupNotNul(bs[1..]);
      DigitCharValue(bs[0] / 16, false);
      DigitCharValue(bs[0] % 16, false);
      assert DigitValue(NUL) == -1;
    }
  }

  lemma {:induction false} JoinNotNul(ts: seq<string>, n: nat)
    requires n <= |ts| && forall i :: 0 <= i < |ts| ==> NUL !in ts[i]
    ensures NUL !in Join(ts, n)
  {
    if n == 0 {
    } else {
      JoinNotNul(ts, n - 1);
      AppendNotNul(Separator(n), ts[n - 1]);
      AppendNotNul(Join(ts, n - 1), Separator(n) + ts[n - 1]);
    }
  }

  lemma AppendNotNul(a: string, b: string)
    requires NUL !in a && NUL !in b
    ensures NUL !in a + b
  {
  }

  /** No row outgrows the line buffer of print_hex_dump, or contains a NUL. */
  lemma RowIsShort(buf: seq<nat>, rowsize: int, groupsize: nat)
    requires IsBytes(buf)
    ensures |RowText(buf, rowsize, groupsize)| < LINEBUF_SIZE && NUL !in RowText(buf, rowsize, groupsize)
  {
    var len := RowLength(|buf|, rowsize);
    var g := GroupFor(groupsize, len);
    GroupForExact(groupsize, len);
    var ts := RowTexts(buf, rowsize, groupsize);
    RowTextLength(buf[..len], g, ts);
    ShortRow(len, g);
    TextsNotNul(buf[..len], g, ts);
    JoinNotNul(ts, |ts|);
  }

  lemma TextsNotNul(bs: seq<nat>, g: nat, ts: seq<string>)
    requires TextsOf(bs, g, ts)
    ensures forall i :: 0 <= i < |ts| ==> NUL !in ts[i]
  {
    forall i | 0 <= i < |ts| ensures NUL !in ts[i] {
      GroupNotNul(Group(bs, g, i));
    }
  }

  lemma ShortRow(len: nat, g: nat)
    requires GroupSize(g) && len <= 32
    ensures (g * 2 + 1) * (len / g) - 1 < LINEBUF_SIZE
  {
  }

  /** The text in a line buffer up to its NUL. */
  method LineText(line: array<char>, ghost text: string) returns (s: string)
    requires HoldsPrefix(line[..], line.Length, text) && |text| < line.Length && NUL !in text
    ensures s == text
  {
    assert forall i :: 0 <= i < |text| ==> line[i] == line[..][..|text|][i] == text[i] && text[i] in text;
    var k := 0;
    while line[k] != NUL
      invariant 0 <= k <= |text| && line[|text|] == NUL
      decreases |text| - k
    {
      k := k + 1;
    }
    s := line[..k];
  }

  /** The rows of a dump: each shows the next bytes, as many as a row holds. */
  function Rows(buf: seq<nat>, rowsize: int, groupsize: nat): seq<string>
    requires IsBytes(buf)
  {
    if buf == [] then []
    else
      var n := RowLength(|buf|, rowsize);
      [RowText(buf[..n], rowsize, groupsize)] + Rows(buf[n..], rowsize, groupsize)
  }

  function DecodeRows(rows: seq<string>): seq<int> {
    if rows == [] then [] else DecodeRow(rows[0]) + DecodeRows(rows[1..])
  }

  /** The rows are never cut off by the line buffer, and decode back to the whole input. */
  lemma {:induction false} RowsReadBack(buf: seq<nat>, rowsize: int, groupsize: nat)
    requires IsBytes(buf)
    ensures DecodeRows(Rows(buf, rowsize, groupsize)) == buf
    ensures forall k :: 0 <= k < |Rows(buf, rowsize, groupsize)| ==>
              |Rows(buf, rowsize, groupsize)[k]| < LINEBUF_SIZE
  {
    if buf == [] {
    } else {
      var n := RowLength(|buf|, rowsize);
      RowReadsBack(buf[..n], rowsize, groupsize);
      RowIsShort(buf[..n], rowsize, groupsize);
      RowsReadBack(buf[n..], rowsize, groupsize);
      SplitAt(buf, n);
    }
  }

  lemma SplitAt(s: seq<int>, n: nat)
    requires n <= |s|
    ensures s[..n][..n] == s[..n] && s[..n] + s[n..] == s
  {
  }

  method PrintRow(chunk: seq<nat>, rowsize: int, groupsize: nat, ascii: bool) returns (row: string)
    requires IsBytes(chunk) && |chunk| <= RowSize(rowsize)
    ensures row == RowText(chunk, rowsize, groupsize)
  {
    var linebuf := new char[LINEBUF_SIZE];
    var ret := HexDumpToBuffer(chunk, rowsize, groupsize, linebuf, LINEBUF_SIZE, ascii);
    RowIsShort(chunk, rowsize, groupsize);
    row := LineText(linebuf, RowText(chunk, rowsize, groupsize));
  }
}
