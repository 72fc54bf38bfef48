/** The "efuse write" command of api/scm_cli_efuse.c: a hexadecimal string becomes a
    string of bytes, lowest first, and its low bits are stored in the device. */
module EfuseCommand {
  import opened Arithmetic
  import opened Bits
  import opened Efuse

  const BUF_SIZE := 128
  const CMD_RET_SUCCESS := 0
  const CMD_RET_FAILURE := 1
  const CMD_RET_USAGE := -1

  predicate IsHex(c: char) {
    '0' <= c <= '9' || 'a' <= c <= 'f' || 'A' <= c <= 'F'
  }

  predicate AllHex(s: string) {
    forall i :: 0 <= i < |s| ==> IsHex(s[i])
  }

  function HexDigit(c: char): (d: nat)
    requires IsHex(c)
    ensures d < 16
  {
    if c <= '9' then (c - '0') as nat
    else if c <= 'F' then (c - 'A') as nat + 10
    else (c - 'a') as nat + 10
  }

  /** The digits 0 to 15, in either case. */
  lemma HexDigitTable(d: nat)
    requires d < 16
    ensures IsHex("0123456789abcdef"[d]) && HexDigit("0123456789abcdef"[d]) == d
    ensures IsHex("0123456789ABCDEF"[d]) && HexDigit("0123456789ABCDEF"[d]) == d
  {
  }

  /** No other characters are digits. */
  lemma HexDigitOnly(c: char)
    requires IsHex(c)
    ensures c == "0123456789abcdef"[HexDigit(c)] || c == "0123456789ABCDEF"[HexDigit(c)]
  {
  }

  /** The number a string of hexadecimal digits denotes, highest digit first. */
  function HexValue(s: string): nat
    requires AllHex(s)
  {
    if s == [] then 0 else 16 * HexValue(s[..|s| - 1]) + HexDigit(s[|s| - 1])
  }

  predicate IsSpace(c: char) {
    c == ' ' || 9 as char <= c <= 13 as char
  }

  function LeadingDigit(c: char): (v: nat)
    ensures v < 16
  {
    if IsHex(c) then HexDigit(c) else 0
  }

  /** The byte that strtol with base 16 gives for one or two characters: it skips a
      leading blank, takes a sign, and stops at the first character that is no digit. */
  function ShortHex(s: string): (v: nat)
    requires 1 <= |s| <= 2
    ensures v < 256
  {
    if |s| == 1 then LeadingDigit(s[0])
    else if IsHex(s[0]) then
      if IsHex(s[1]) then 16 * HexDigit(s[0]) + HexDigit(s[1]) else HexDigit(s[0])
    else if IsSpace(s[0]) || s[0] == '+' then LeadingDigit(s[1])
    else if s[0] == '-' then (256 - LeadingDigit(s[1])) % 256
    else 0
  }

  /** For hexadecimal digits that is their value; otherwise what strtol makes of them. */
  lemma ShortHexCases(a: char, b: char)
    ensures IsHex(a) ==> ShortHex([a]) == HexDigit(a)
    ensures !IsHex(a) ==> ShortHex([a]) == 0
    ensures IsHex(a) && IsHex(b) ==> ShortHex([a, b]) == 16 * HexDigit(a) + HexDigit(b)
    ensures IsHex(a) && !IsHex(b) ==> ShortHex([a, b]) == HexDigit(a)
    ensures (a == ' ' || a == '+') && IsHex(b) ==> ShortHex([a, b]) == HexDigit(b)
    ensures a == '-' && IsHex(b) ==> ShortHex([a, b]) == (256 - HexDigit(b)) % 256
    ensures !IsHex(a) && !IsHex(b) ==> ShortHex([a, b]) == 0
  {
  }

  /** The characters that give byte j: two of them counted from the end, or a lone first
      one. */
  function Chunk(s: string, j: nat): (c: string)
    requires 2 * j < |s|
    ensures 1 <= |c| <= 2
  {
    var end := |s| - 2 * j;
    s[if end == 1 then 0 else end - 2..end]
  }

  /** Just enough bytes for the digits. */
  function BufLen(argLen: nat): (n: nat)
    ensures argLen <= 2 * n <= argLen + 1
  {
    argLen / 2 + argLen % 2
  }

  /** The two length checks; the second compares unsigned, so an empty argument, for
      which buf_len - 1 is negative, never passes. */
  predicate Accepted(argLen: nat, bitCount: nat) {
    && bitCount <= BufLen(argLen) * 8
    && bitCount > ((BufLen(argLen) as int - 1) * 8) % 0x1_0000_0000
  }

  lemma AcceptedExact(argLen: nat, bitCount: nat)
    requires argLen <= 255
    ensures Accepted(argLen, bitCount) <==> argLen > 0 && 8 * (BufLen(argLen) - 1) < bitCount <= 8 * BufLen(argLen)
  {
  }

  /** Taking two digits off the end takes the low byte off the value. */
  lemma SplitLowByte(s: string)
    requires AllHex(s) && |s| >= 2
    ensures HexValue(s) == 256 * HexValue(s[..|s| - 2]) + ShortHex(s[|s| - 2..])
  {
    var t, u := s[..|s| - 1], s[..|s| - 2];
    LastDigit(s);
    LastDigit(t);
    assert t[..|t| - 1] == u && t[|t| - 1] == s[|s| - 2];
    var low := s[|s| - 2..];
    assert low[0] == s[|s| - 2] && low[1] == s[|s| - 1];
  }

  lemma LastDigit(s: string)
    requires AllHex(s) && s != []
    ensures HexValue(s) == 16 * HexValue(s[..|s| - 1]) + HexDigit(s[|s| - 1])
  {
  }

  /** The number whose low bytes are s and whose remaining part is `high`. */
  function Join(high: nat, s: seq<nat>): nat {
    if s == [] then high else s[0] + 256 * Join(high, s[1..])
  }

  lemma {:induction false} JoinAppend(high: nat, b: nat, s: seq<nat>)
    ensures Join(high, s + [b]) == Join(256 * high + b, s)
  {
    if s == [] {
      assert (s + [b])[1..] == [];
    } else {
      JoinAppend(high, b, s[1..]);
      assert (s + [b])[1..] == s[1..] + [b];
    }
  }

  lemma {:induction false} JoinZero(s: seq<nat>)
    ensures Join(0, s) == LittleEndian(s)
  {
    if s == [] {
    } else {
      JoinZero(s[1..]);
    }
  }

  /** `bytes` hold the low digits of the argument, and `rest` digits are left. */
  ghost predicate Parsed(arg: string, rest: nat, bytes: seq<nat>)
    requires AllHex(arg)
  {
    rest <= |arg| && HexValue(arg) == Join(HexValue(arg[..rest]), bytes)
  }

  lemma ParseTwo(arg: string, rest: nat, bytes: seq<nat>)
    requires AllHex(arg) && Parsed(arg, rest, bytes) && rest >= 2
    ensures Parsed(arg, rest - 2, bytes + [ShortHex(arg[rest - 2..rest])])
  {
    var s := arg[..rest];
    SplitLowByte(s);
    assert s[..rest - 2] == arg[..rest - 2] && s[rest - 2..] == arg[rest - 2..rest];
    JoinAppend(HexValue(arg[..rest - 2]), ShortHex(arg[rest - 2..rest]), bytes);
  }

  lemma ParseOne(arg: string, bytes: seq<nat>)
    requires AllHex(arg) && Parsed(arg, 1, bytes)
    ensures Parsed(arg, 0, bytes + [ShortHex([arg[0]])])
  {
    assert arg[..1] == [arg[0]] && arg[..1][..0] == [] && arg[..0] == [];
    JoinAppend(0, HexDigit(arg[0]), bytes);
  }

  /** `bytes` come from the characters behind the first `rest` ones. */
  ghost predicate Stored(arg: string, rest: nat, bytes: seq<nat>) {
    && rest <= |arg|
    && (forall k :: 0 <= k < |bytes| ==> 2 * k < |arg| && bytes[k] == ShortHex(Chunk(arg, k)))
    && (AllHex(arg) ==> Parsed(arg, rest, bytes))
  }

  lemma StoreTwo(arg: string, rest: nat, bytes: seq<nat>)
    requires Stored(arg, rest, bytes) && rest >= 2 && rest + 2 * |bytes| == |arg|
    ensures Stored(arg, rest - 2, bytes + [ShortHex(arg[rest - 2..rest])])
  {
    assert Chunk(arg, |bytes|) == arg[rest - 2..rest];
    if AllHex(arg) { ParseTwo(arg, rest, bytes); }
  }

  lemma StoreOne(arg: string, bytes: seq<nat>)
    requires Stored(arg, 1, bytes) && 1 + 2 * |bytes| == |arg|
    ensures Stored(arg, 0, bytes + [ShortHex([arg[0]])])
  {
    assert Chunk(arg, |bytes|) == [arg[0]];
    if AllHex(arg) { ParseOne(arg, bytes); }
  }

  lemma StoredValue(arg: string, bytes: seq<nat>)
    requires Stored(arg, 0, bytes)
    ensures AllHex(arg) ==> LittleEndian(bytes) == HexValue(arg)
  {
    assert arg[..0] == [];
    JoinZero(bytes);
  }

  /** The parsing loop: each byte comes from its two characters, and the bytes of a
      string of hexadecimal digits are its value, lowest first. */
  method ParseHex(arg: string, buf: array<nat>)
    requires 1 <= |arg| <= 255 && buf.Length == BUF_SIZE
    modifies buf
    ensures forall j :: 0 <= j < BufLen(|arg|) ==> buf[j] == ShortHex(Chunk(arg, j))
    ensures IsBytes(buf[..BufLen(|arg|)])
    ensures AllHex(arg) ==> LittleEndian(buf[..BufLen(|arg|)]) == HexValue(arg)
    ensures buf[BufLen(|arg|)..] == old(buf[BufLen(|arg|)..])
  {
    var i, j := |arg| - 1, 0;
    assert arg[..|arg|] == arg;
    ghost var bytes: seq<nat> := [];
    while i > 0
      invariant -1 <= i && 0 <= j && i + 1 + 2 * j == |arg|
      invariant |bytes| == j && buf[..j] == bytes && Stored(arg, i + 1, bytes)
      invariant buf[BufLen(|arg|)..] == old(buf[BufLen(|arg|)..])
    {
      StoreTwo(arg, i + 1, bytes);
      var b := arg[i - 1..i + 1];
      buf[j] := ShortHex(b);
      bytes := bytes + [ShortHex(b)];
      i, j := i - 2, j + 1;
    }
    if |arg| % 2 == 1 {
      StoreOne(arg, bytes);
      buf[j] := ShortHex([arg[0]]);
      bytes := bytes + [ShortHex([arg[0]])];
    }
    assert buf[..BufLen(|arg|)] == bytes;
    StoredValue(arg, bytes);
  }

  /** Every request for reading and then writing the rows of a field is served, the last
      one with status 0. */
  predicate Granted(dev: Device, rowCount: nat, c0: nat, offset: nat, count: nat) {
    Finishes(dev.answers, rowCount, c0, offset / 32, RowsTouched(offset, count))
  }

  /** scm_cli_efuse_write.  Lengths are 8-bit, so only the first |arg| mod 256 digits of
      a longer argument are seen. */
  method WriteCommand(dev: Device, available: bool, offset: nat, bitCount: nat, arg: string, buf: array<nat>)
    returns (rc: int)
    requires buf.Length == BUF_SIZE
    modifies dev, buf
    ensures rc == CMD_RET_USAGE <==> !Accepted(|arg| % 256, bitCount)
    ensures rc == CMD_RET_SUCCESS
       <==> Accepted(|arg| % 256, bitCount) && available
            && Granted(dev, |dev.rows|, old(dev.calls), offset % 65536, bitCount)
    ensures rc == CMD_RET_USAGE || rc == CMD_RET_SUCCESS || rc == CMD_RET_FAILURE
    ensures rc == CMD_RET_USAGE ==> dev.rows == old(dev.rows) && buf[..] == old(buf[..])
    ensures |dev.rows| == |old(dev.rows)|
    ensures rc == CMD_RET_SUCCESS ==> OredIn(old(dev.rows), dev.rows, offset % 65536, bitCount, buf[..])
    ensures rc == CMD_RET_SUCCESS ==> dev.calls == old(dev.calls) + 2 * RowsTouched(offset % 65536, bitCount)
    ensures var digits := arg[..|arg| % 256];
            rc == CMD_RET_SUCCESS && AllHex(digits) ==>
              StoredField(old(dev.rows), dev.rows, offset % 65536, bitCount, HexValue(digits))
  {
    var argLen := |arg| % 256;
    AcceptedExact(argLen, bitCount);
    if !Accepted(argLen, bitCount) { return CMD_RET_USAGE; }
    var digits := arg[..argLen];
    ParseHex(digits, buf);
    ghost var before := dev.rows;
    var ret := dev.Write(available, offset % 65536, bitCount, buf);
    if ret != WISE_OK { return CMD_RET_FAILURE; }
    if AllHex(digits) {
      StoredFromOr(before, dev.rows, offset % 65536, bitCount, buf[..], BufLen(argLen), HexValue(digits));
    }
    return CMD_RET_SUCCESS;
  }

  /** The low `count` bits of `value` have been ORed in at `offset`, nothing else changed. */
  ghost predicate StoredField(was: seq<Row>, now: seq<Row>, offset: nat, count: nat, value: nat) {
    && |now| == |was| && offset + count <= 32 * |now|
    && forall n :: 0 <= n < 32 * |now| ==>
         (DeviceBit(now, n) <==> DeviceBit(was, n) || (offset <= n < offset + count && Bit(value, n - offset)))
  }

  lemma StoredFromOr(was: seq<Row>, now: seq<Row>, offset: nat, count: nat, buf: seq<nat>, n: nat, value: nat)
    requires OredIn(was, now, offset, count, buf)
    requires n <= |buf| && count <= 8 * n && IsBytes(buf[..n]) && LittleEndian(buf[..n]) == value
    ensures StoredField(was, now, offset, count, value)
  {
    forall k | 0 <= k < count ensures ByteBit(buf, k) <==> Bit(value, k) {
      LittleEndianBits(buf[..n], k);
      assert ByteBit(buf[..n], k) <==> ByteBit(buf, k);
    }
  }

  /** The field holds the low bits of the value, and bits outside it are as before. */
  ghost predicate FieldIs(was: seq<Row>, now: seq<Row>, offset: nat, count: nat, value: nat) {
    && |now| == |was| && offset + count <= 32 * |now|
    && (forall k :: 0 <= k < count ==> (DeviceBit(now, offset + k) <==> Bit(value, k)))
    && (forall n :: 0 <= n < 32 * |now| && !(offset <= n < offset + count) ==>
          (DeviceBit(now, n) <==> DeviceBit(was, n)))
  }

  lemma StoredInCleared(was: seq<Row>, cleared: seq<Row>, now: seq<Row>, offset: nat, count: nat, value: nat)
    requires Cleared(was, cleared, offset, count) && StoredField(cleared, now, offset, count, value)
    ensures FieldIs(was, now, offset, count, value)
  {
  }

  /** A field whose bits are those of `value` reads back as its low `count` bits. */
  lemma ReadBackValue(out: seq<nat>, rows: seq<Row>, offset: nat, count: nat, value: nat)
    requires Copied(out, ByteCount(count), rows, offset, count)
    requires forall k :: 0 <= k < count ==> (DeviceBit(rows, offset + k) <==> Bit(value, k))
    ensures LittleEndian(out[..ByteCount(count)]) == value % Pow2(count)
  {
    var n := ByteCount(count);
    var bytes := out[..n];
    LittleEndianBound(bytes);
    if count < 8 * n { Pow2Monotone(count, 8 * n); }
    Division(value, Pow2(count));
    forall k | 0 <= k < 8 * n ensures Bit(LittleEndian(bytes), k) <==> Bit(value % Pow2(count), k) {
      LittleEndianBits(bytes, k);
      assert ByteBit(bytes, k) <==> ByteBit(out, k);
      RemainderBits(value, count, k);
    }
    SameBits(LittleEndian(bytes), value % Pow2(count), 8 * n);
  }

  /** Clear a field and store a hexadecimal value in it. */
  method ClearAndStore(dev: Device, offset: nat, bitCount: nat, arg: string, buf: array<nat>) returns (ok: bool)
    requires AllHex(arg) && 1 <= |arg| <= 255 && offset < 65536 && buf.Length == BUF_SIZE
    modifies dev, buf
    ensures var c0, n := old(dev.calls), RowsTouched(offset, bitCount);
            && (ok <==> && Accepted(|arg|, bitCount)
                        && Granted(dev, |dev.rows|, c0, offset, bitCount)
                        && Granted(dev, |dev.rows|, c0 + 2 * n, offset, bitCount))
            && (ok ==> dev.calls == c0 + 4 * n)
    ensures |dev.rows| == |old(dev.rows)|
    ensures ok ==> FieldIs(old(dev.rows), dev.rows, offset, bitCount, HexValue(arg))
  {
    assert offset % 65536 == offset && |arg| % 256 == |arg| && arg[..|arg|] == arg;
    var rc := dev.Clear(true, true, false, offset, bitCount);
    if rc != WISE_OK { return false; }
    ghost var cleared := dev.rows;
    rc := WriteCommand(dev, true, offset, bitCount, arg, buf);
    if rc != CMD_RET_SUCCESS { return false; }
    StoredInCleared(old(dev.rows), cleared, dev.rows, offset, bitCount, HexValue(arg));
    return true;
  }

  /** Reading the field afterwards gives the low bits of the value, and no bit outside the
      field has changed. */
  method StoreAndReadBack(dev: Device, offset: nat, bitCount: nat, arg: string, buf: array<nat>, out: array<nat>)
    returns (ok: bool)
    requires AllHex(arg) && 1 <= |arg| <= 255 && offset < 65536
    requires buf.Length == BUF_SIZE && out.Length == BUF_SIZE && buf != out && IsBytes(out[..])
    modifies dev, buf, out
    ensures var c0, n := old(dev.calls), RowsTouched(offset, bitCount);
            ok <==> && Accepted(|arg|, bitCount)
                    && Granted(dev, |dev.rows|, c0, offset, bitCount)
                    && Granted(dev, |dev.rows|, c0 + 2 * n, offset, bitCount)
                    && Delivers(dev.answers, |dev.rows|, c0 + 4 * n, offset / 32, n)
    ensures ok ==> ByteCount(bitCount) <= BUF_SIZE
                   && LittleEndian(out[..ByteCount(bitCount)]) == HexValue(arg) % Pow2(bitCount)
    ensures ok ==> FieldIs(old(dev.rows), dev.rows, offset, bitCount, HexValue(arg))
  {
    ok := ClearAndStore(dev, offset, bitCount, arg, buf);
    if !ok { return; }
    AcceptedExact(|arg|, bitCount);
    ghost var rows := dev.rows;
    var rc;
    ghost var m;
    rc, m := dev.Read(true, offset, bitCount, out);
    if rc != WISE_OK { return false; }
    ReadBackValue(out[..], rows, offset, bitCount, HexValue(arg));
  }
}
