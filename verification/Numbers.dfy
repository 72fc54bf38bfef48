/** Radix conversion and number fields of kernel/console.c: ksprintn and the `number`
    part of kvprintf. */
module Numbers {
  import opened Arithmetic
  import opened Bits

  const MAXNBUF := 65
  const UINTMAX_RANGE := 0x1_0000_0000_0000_0000

  predicate Radix(base: nat) {
    2 <= base <= 36
  }

  function ToUpper(c: char): char {
    if 'a' <= c <= 'z' then c - 'a' + 'A' else c
  }

  /** hex2ascii: the digits 0-9 and then a-z. */
  function DigitChar(d: nat, upper: bool): char
    requires d < 36
  {
    var c := if d < 10 then '0' + d as char else 'a' + (d - 10) as char;
    if upper then ToUpper(c) else c
  }

  const LOWER := "0123456789abcdefghijklmnopqrstuvwxyz"
  const UPPER := "0123456789ABCDEFGHIJKLMNOPQRSTUVWXYZ"

  lemma LowerTable(d: nat)
    requires d < 36
    ensures DigitChar(d, false) == LOWER[d]
  {
  }

  lemma UpperTable(d: nat)
    requires d < 36
    ensures DigitChar(d, true) == UPPER[d]
  {
  }

  // ----- Digits -----

  /** The digits of num, highest first. */
  function Digits(num: nat, base: nat, upper: bool): (s: string)
    requires Radix(base)
    ensures |s| >= 1
    decreases num
  {
    Shrinks(num, base);
    if num / base == 0 then [DigitChar(num % base, upper)]
    else Digits(num / base, base, upper) + [DigitChar(num % base, upper)]
  }

  lemma Shrinks(num: nat, base: nat)
    requires Radix(base)
    ensures num == base * (num / base) + num % base && 0 <= num % base < base && 0 <= num / base
    ensures num > 0 ==> num / base < num
    ensures 2 * (num / base) <= num
  {
    var q := num / base;
    Division(num, base);
    AtLeastDouble(q, base);
  }

  lemma AtLeastDouble(q: nat, base: nat)
    requires base >= 2
    ensures 2 * q <= base * q
  {
  }

  function DigitValue(c: char): (d: int)
    ensures -1 <= d < 36
  {
    if '0' <= c <= '9' then (c - '0') as int
    else if 'a' <= c <= 'z' then (c - 'a') as int + 10
    else if 'A' <= c <= 'Z' then (c - 'A') as int + 10
    else -1
  }

  lemma DigitCharValue(d: nat, upper: bool)
    requires d < 36
    ensures DigitValue(DigitChar(d, upper)) == d
    ensures DigitChar(d, upper) == '0' <==> d == 0
    ensures d < 16 ==> DigitChar(d, upper) != 'x'
  {
  }

  /** What a string of digits denotes; characters that are not digits count as -1. */
  function Value(s: string, base: nat): int {
    if s == [] then 0 else base * Value(s[..|s| - 1], base) + DigitValue(s[|s| - 1])
  }

  predicate DigitsOf(s: string, base: nat) {
    forall i :: 0 <= i < |s| ==> 0 <= DigitValue(s[i]) < base
  }

  /** Printed digits denote the number, are digits of the base, and start with zero only
      for the number zero. */
  lemma {:induction false} DigitsDenote(num: nat, base: nat, upper: bool)
    requires Radix(base)
    ensures Value(Digits(num, base, upper), base) == num
    ensures DigitsOf(Digits(num, base, upper), base)
    ensures Digits(num, base, upper)[0] == '0' <==> num == 0
    decreases num
  {
    Shrinks(num, base);
    var s := Digits(num, base, upper);
    DigitCharValue(num % base, upper);
    if num / base == 0 {
      assert s[..0] == [];
      assert base * (num / base) == 0;
    } else {
      var t := Digits(num / base, base, upper);
      DigitsDenote(num / base, base, upper);
      assert s[..|s| - 1] == t;
      assert s[0] == t[0];
    }
  }

  /** A number below 2^k has at most k digits in any base. */
  lemma {:induction false} DigitsFit(num: nat, base: nat, upper: bool, k: nat)
    requires Radix(base) && k >= 1 && num < Pow2(k)
    ensures |Digits(num, base, upper)| <= k
    decreases k
  {
    Shrinks(num, base);
    if num / base != 0 { DigitsFit(num / base, base, upper, k - 1); }
  }

  /** `low` stands in the buffer behind the NUL, in reverse, and ends at index |low|. */
  predicate Reversed(nbuf: array<char>, low: string)
    reads nbuf
  {
    |low| < nbuf.Length && nbuf[0] == '\0' && forall i :: 0 <= i < |low| ==> nbuf[|low| - i] == low[i]
  }

  /** ksprintn: the digits in reverse order after a NUL, within the buffer. */
  method Ksprintn(nbuf: array<char>, num: nat, base: nat, upper: bool) returns (len: nat)
    requires nbuf.Length >= MAXNBUF && num < UINTMAX_RANGE && Radix(base)
    modifies nbuf
    ensures len == |Digits(num, base, upper)| <= 64 && Reversed(nbuf, Digits(num, base, upper))
    ensures forall i :: len < i < nbuf.Length ==> nbuf[i] == old(nbuf[i])
  {
    Pow2Of32();
    Pow2Doubled(32, 64, 0x1_0000_0000);
    DigitsFit(num, base, upper, 64);
    nbuf[0] := '\0';
    len := StoreDigits(nbuf, num, base, upper);
  }

  /** The do-while loop, which stores at least one digit. */
  method StoreDigits(nbuf: array<char>, num: nat, base: nat, upper: bool) returns (p: nat)
    requires Radix(base) && |Digits(num, base, upper)| < nbuf.Length && nbuf[0] == '\0'
    modifies nbuf
    ensures p == |Digits(num, base, upper)| && Reversed(nbuf, Digits(num, base, upper))
    ensures forall i :: p < i < nbuf.Length ==> nbuf[i] == old(nbuf[i])
  {
    var n: nat, more := num, true;
    p := 0;
    ghost var low := "";
    while more
      invariant p == |low| && Reversed(nbuf, low)
      invariant Digits(num, base, upper) == if more then Digits(n, base, upper) + low else low
      invariant forall i :: p < i < nbuf.Length ==> nbuf[i] == old(nbuf[i])
      decreases more, n
    {
      OneDigit(n, base, upper, low);
      Shrinks(n, base);
      var c := DigitChar(n % base, upper);
      p := p + 1;
      nbuf[p] := c;
      low := [c] + low;
      n := n / base;
      more := n != 0;
    }
  }

  lemma OneDigit(n: nat, base: nat, upper: bool, low: string)
    requires Radix(base)
    ensures 0 <= n % base < base && 0 <= n / base
    ensures Digits(n, base, upper) + low
         == if n / base == 0 then [DigitChar(n % base, upper)] + low
            else Digits(n / base, base, upper) + ([DigitChar(n % base, upper)] + low)
  {
  }

  // ----- Fields -----

  function Repeat(c: char, n: int): (s: string)
    ensures |s| == if n > 0 then n else 0
    ensures forall i :: 0 <= i < |s| ==> s[i] == c
  {
    if n <= 0 then "" else [c] + Repeat(c, n - 1)
  }

  function Max(a: int, b: int): int {
    if a > b then a else b
  }

  /** What the directive asks of a number. */
  datatype Layout = Layout(width: int, dwidth: int, ladjust: bool, zeroPad: bool, sharp: bool)

  function Prefix(num: nat, base: nat, l: Layout): string {
    if l.sharp && num != 0 then (if base == 8 then "0" else if base == 16 then "0x" else "") else ""
  }

  function Sign(neg: bool): string {
    if neg then "-" else ""
  }

  /** Least number of digits under the zero-padding rule. */
  function MinDigits(num: nat, neg: bool, base: nat, l: Layout): int {
    if !l.ladjust && l.zeroPad then l.width - |Sign(neg)| - |Prefix(num, base, l)| else l.dwidth
  }

  /** Sign, base prefix, zeros and digits. */
  function Body(num: nat, neg: bool, base: nat, upper: bool, l: Layout): string
    requires Radix(base)
  {
    var digits := Digits(num, base, upper);
    Sign(neg) + (Prefix(num, base, l) + (Repeat('0', MinDigits(num, neg, base, l) - |digits|) + digits))
  }

  function NumberField(num: nat, neg: bool, base: nat, upper: bool, l: Layout): string
    requires Radix(base)
  {
    var body := Body(num, neg, base, upper, l);
    var pad := Repeat(' ', l.width - |body|);
    if l.ladjust then body + pad else pad + body
  }

  lemma BodyLength(num: nat, neg: bool, base: nat, upper: bool, l: Layout)
    requires Radix(base)
    ensures |Body(num, neg, base, upper, l)|
         == |Sign(neg)| + |Prefix(num, base, l)|
            + Max(MinDigits(num, neg, base, l), |Digits(num, base, upper)|)
  {
  }

  /** A field is as wide as asked, or as wide as its contents. */
  lemma FieldLength(num: nat, neg: bool, base: nat, upper: bool, l: Layout)
    requires Radix(base)
    ensures |NumberField(num, neg, base, upper, l)|
         == Max(l.width, |Sign(neg)| + |Prefix(num, base, l)|
                         + Max(MinDigits(num, neg, base, l), |Digits(num, base, upper)|))
  {
    BodyLength(num, neg, base, upper, l);
  }

  /** A number field, piece by piece: blanks on one side, the sign, the base prefix, zeros and
      the digits, with the counts that the width, the precision and the flags ask for. */
  lemma FieldShape(num: nat, neg: bool, base: nat, upper: bool, l: Layout)
    requires Radix(base)
    ensures var digits := Digits(num, base, upper);
            var prefix := if !l.sharp || num == 0 then ""
                          else if base == 8 then "0" else if base == 16 then "0x" else "";
            var tmp := |prefix| + if neg then 1 else 0;
            var dwidth := if !l.ladjust && l.zeroPad then l.width - tmp else l.dwidth;
            var zeros := Repeat('0', dwidth - |digits|);
            var blanks := Repeat(' ', l.width - tmp - Max(dwidth, |digits|));
            var body := (if neg then "-" else "") + prefix + zeros + digits;
            NumberField(num, neg, base, upper, l) == if l.ladjust then body + blanks else blanks + body
  {
    BodyShape(num, neg, base, upper, l);
    BodyLength(num, neg, base, upper, l);
    PiecesExact(num, neg, base, l);
  }

  lemma BodyShape(num: nat, neg: bool, base: nat, upper: bool, l: Layout)
    requires Radix(base)
    ensures Body(num, neg, base, upper, l)
         == Sign(neg) + Prefix(num, base, l)
            + Repeat('0', MinDigits(num, neg, base, l) - |Digits(num, base, upper)|) + Digits(num, base, upper)
  {
    var s, p, d := Sign(neg), Prefix(num, base, l), Digits(num, base, upper);
    FourPieces(s, p, Repeat('0', MinDigits(num, neg, base, l) - |d|), d);
  }

  lemma FourPieces(a: string, b: string, c: string, d: string)
    ensures a + (b + (c + d)) == a + b + c + d
  {
  }

  lemma PiecesExact(num: nat, neg: bool, base: nat, l: Layout)
    ensures Prefix(num, base, l)
         == if !l.sharp || num == 0 then "" else if base == 8 then "0" else if base == 16 then "0x" else ""
    ensures Sign(neg) == if neg then "-" else ""
    ensures var tmp := |Prefix(num, base, l)| + if neg then 1 else 0;
            MinDigits(num, neg, base, l) == if !l.ladjust && l.zeroPad then l.width - tmp else l.dwidth
  {
  }

  // ----- Reading a field back -----

  function TrimLeft(s: string): string {
    if s != [] && s[0] == ' ' then TrimLeft(s[1..]) else s
  }

  function TrimRight(s: string): string {
    if s != [] && s[|s| - 1] == ' ' then TrimRight(s[..|s| - 1]) else s
  }

  function Unprefix(s: string, base: nat): string {
    if base == 16 && |s| >= 2 && s[0] == '0' && s[1] == 'x' then s[2..] else s
  }

  /** Reads a number: blanks around it, a minus sign, 0x in base 16, digits. */
  function ReadNumber(s: string, base: nat): int {
    var t := TrimRight(TrimLeft(s));
    if t != [] && t[0] == '-' then -Value(Unprefix(t[1..], base), base) else Value(Unprefix(t, base), base)
  }

  lemma {:induction false} TrimLeftPad(n: int, body: string)
    requires body != [] && body[0] != ' '
    ensures TrimLeft(Repeat(' ', n) + body) == body
    decreases if n > 0 then n else 0
  {
    if n <= 0 {
      assert Repeat(' ', n) + body == body;
    } else {
      TrimLeftPad(n - 1, body);
      assert (Repeat(' ', n) + body)[1..] == Repeat(' ', n - 1) + body;
    }
  }

  lemma {:induction false} TrimRightPad(n: int, body: string)
    requires body != [] && body[|body| - 1] != ' '
    ensures TrimRight(body + Repeat(' ', n)) == body
    decreases if n > 0 then n else 0
  {
    var s := body + Repeat(' ', n);
    if n <= 0 {
      assert s == body;
    } else {
      TrimRightPad(n - 1, body);
      RepeatLast(' ', n);
      assert s[..|s| - 1] == body + Repeat(' ', n - 1);
    }
  }

  lemma {:induction false} RepeatLast(c: char, n: int)
    requires n > 0
    ensures Repeat(c, n) == Repeat(c, n - 1) + [c]
  {
  }

  lemma {:induction false} ValueOfZeros(n: int, s: string, base: nat)
    ensures Value(Repeat('0', n) + s, base) == Value(s, base)
    decreases |s|, if n > 0 then n else 0
  {
    var z := Repeat('0', n) + s;
    if s != [] {
      ValueOfZeros(n, s[..|s| - 1], base);
      assert z[..|z| - 1] == Repeat('0', n) + s[..|s| - 1];
    } else if n > 0 {
      RepeatLast('0', n);
      ValueOfZeros(n - 1, s, base);
      assert z[..|z| - 1] == Repeat('0', n - 1) + s;
      assert base * 0 == 0;
    }
  }

  /** The digits behind sign and prefix, with their zeros. */
  lemma ZerosAndDigits(num: nat, base: nat, upper: bool, n: int)
    requires Radix(base)
    ensures var s := Repeat('0', n) + Digits(num, base, upper); Value(s, base) == num && DigitsOf(s, base)
  {
    DigitsDenote(num, base, upper);
    var d := Digits(num, base, upper);
    ValueOfZeros(n, d, base);
    DigitsBehindZeros(n, d, base);
  }

  lemma DigitsBehindZeros(n: int, d: string, base: nat)
    requires DigitsOf(d, base) && base > 0
    ensures DigitsOf(Repeat('0', n) + d, base)
  {
  }

  /** A reader that drops 0x in base 16 is not misled by the digits, and a leading zero
      in base 8 does not change the value. */
  lemma PrefixIsIgnored(num: nat, base: nat, l: Layout, s: string)
    requires s != [] && DigitsOf(s, base)
    ensures Value(Unprefix(Prefix(num, base, l) + s, base), base) == Value(s, base)
  {
    var p := Prefix(num, base, l);
    assert p == "" ==> p + s == s;
    if base == 16 {
      assert ("0x" + s)[2..] == s;
      assert |s| >= 2 ==> s[1] != 'x';
    } else if base == 8 {
      assert Repeat('0', 1) == "0";
      ValueOfZeros(1, s, base);
    }
  }

  /** Every printed number parses back to its value. */
  lemma FieldReadsBack(num: nat, neg: bool, base: nat, upper: bool, l: Layout)
    requires Radix(base)
    ensures ReadNumber(NumberField(num, neg, base, upper, l), base) == if neg then -(num as int) else num
  {
    var t, s := BodyParts(num, neg, base, upper, l);
    BodyReadsBack(t, s, neg, base, num, l.width - |Sign(neg) + t|);
  }

  /** A body is sign, prefix and a string of digits s; t is what follows the sign. */
  lemma BodyParts(num: nat, neg: bool, base: nat, upper: bool, l: Layout) returns (t: string, s: string)
    requires Radix(base)
    ensures Body(num, neg, base, upper, l) == Sign(neg) + t
    ensures s != [] && DigitsOf(s, base) && |s| <= |t| && t[|t| - |s|..] == s && (t[0] == '0' || t == s)
    ensures Value(Unprefix(t, base), base) == num
  {
    var n := MinDigits(num, neg, base, l) - |Digits(num, base, upper)|;
    s := Repeat('0', n) + Digits(num, base, upper);
    t := Prefix(num, base, l) + s;
    ZerosAndDigits(num, base, upper, n);
    PrefixIsIgnored(num, base, l, s);
    PrefixFirst(num, base, l, s);
  }

  lemma PrefixFirst(num: nat, base: nat, l: Layout, s: string)
    requires s != []
    ensures var t := Prefix(num, base, l) + s; |s| <= |t| && t[|t| - |s|..] == s && (t[0] == '0' || t == s)
  {
  }

  lemma BodyReadsBack(t: string, s: string, neg: bool, base: nat, num: nat, pad: int)
    requires s != [] && DigitsOf(s, base) && |s| <= |t| && t[|t| - |s|..] == s
    requires t[0] == '0' || t == s
    requires Value(Unprefix(t, base), base) == num
    ensures var body := Sign(neg) + t;
            && ReadNumber(body + Repeat(' ', pad), base) == (if neg then -(num as int) else num)
            && ReadNumber(Repeat(' ', pad) + body, base) == (if neg then -(num as int) else num)
  {
    var body := Sign(neg) + t;
    assert t[|t| - 1] == s[|s| - 1] && 0 <= DigitValue(s[|s| - 1]) && 0 <= DigitValue(t[0]);
    assert body[|body| - 1] == t[|t| - 1];
    TrimLeftPad(pad, body);
    TrimRightPad(pad, body);
    assert TrimRight(body) == body;
    assert TrimLeft(body + Repeat(' ', pad)) == body + Repeat(' ', pad);
    if neg { assert body[1..] == t; } else { assert body == t; }
  }
}
