/** The kernel formatter of kernel/console.c: kvprintf and snprintk.

    Arguments come as a typed list; reading past its end, or a value of the other type,
    gives 0 or NULL.  The conversions %b, %D and %n are not part of this model. */
module Printf {
  import opened Arithmetic
  import opened Numbers
  import opened Wrappers

  const NUL := '\0'

  datatype Arg = Int(n: int) | Str(s: string) | NullStr

  function NextInt(args: seq<Arg>): int {
    if args != [] && args[0].Int? then args[0].n else 0
  }

  function NextStr(args: seq<Arg>): string {
    if args != [] && args[0].Str? then args[0].s else "(null)"
  }

  function Rest(args: seq<Arg>): seq<Arg> {
    if args == [] then [] else args[1..]
  }

  // ----- Directives -----

  /** Everything between % and the conversion character. */
  datatype Spec = Spec(
    padc: char, width: int, dwidth: int,
    ladjust: bool, sharp: bool, sign: bool, dot: bool,
    j: bool, q: bool, t: bool, l: bool, z: bool, h: bool, hh: bool)

  const FRESH := Spec(' ', 0, 0, false, false, false, false, false, false, false, false, false, false, false)

  /** A character that only sets flags. */
  function Flag(sp: Spec, c: char): Option<Spec> {
    if c == '.' then Some(sp.(dot := true))
    else if c == '#' then Some(sp.(sharp := true))
    else if c == '+' then Some(sp.(sign := true))
    else if c == '-' then Some(sp.(ladjust := true))
    else if c == '0' && !sp.dot then Some(sp.(padc := '0'))
    else if c == 'h' then Some(if sp.h then sp.(h := false, hh := true) else sp.(h := true))
    else if c == 'j' then Some(sp.(j := true))
    else if c == 'l' then Some(if sp.l then sp.(l := false, q := true) else sp.(l := true))
    else if c == 'q' then Some(sp.(q := true))
    else if c == 't' then Some(sp.(t := true))
    else if c == 'z' then Some(sp.(z := true))
    else None
  }

  /** A star takes width or precision from the arguments. */
  function Star(sp: Spec, n: int): Spec {
    if sp.dot then sp.(dwidth := n)
    else if n < 0 then sp.(ladjust := !sp.ladjust, width := -n)
    else sp.(width := n)
  }

  predicate IsDigit(c: char) {
    '0' <= c <= '9'
  }

  function ScanEnd(fmt: string, i: nat): (e: nat)
    requires i <= |fmt|
    ensures i <= e <= |fmt|
    ensures i < |fmt| && IsDigit(fmt[i]) ==> i < e
    decreases |fmt| - i
  {
    if i < |fmt| && IsDigit(fmt[i]) then ScanEnd(fmt, i + 1) else i
  }

  function ScanNumber(fmt: string, i: nat, acc: int): int
    requires i <= |fmt|
    decreases |fmt| - i
  {
    if i < |fmt| && IsDigit(fmt[i]) then ScanNumber(fmt, i + 1, acc * 10 + (fmt[i] - '0') as int) else acc
  }

  function WithNumber(sp: Spec, n: int): Spec {
    if sp.dot then sp.(dwidth := n) else sp.(width := n)
  }

  datatype Directive = Directive(sp: Spec, conv: char, next: nat, args: seq<Arg>)

  /** Reads a directive from position i on; at the end of the string it sees the NUL. */
  function ReadDirective(fmt: string, i: nat, sp: Spec, args: seq<Arg>): (d: Directive)
    requires i <= |fmt|
    ensures i <= d.next <= |fmt|
    decreases |fmt| - i
  {
    if i == |fmt| then Directive(sp, NUL, i, args)
    else
      var c := fmt[i];
      if Flag(sp, c).Some? then ReadDirective(fmt, i + 1, Flag(sp, c).value, args)
      else if c == '*' then ReadDirective(fmt, i + 1, Star(sp, NextInt(args)), Rest(args))
      else if IsDigit(c) then ReadDirective(fmt, ScanEnd(fmt, i), WithNumber(sp, ScanNumber(fmt, i, 0)), args)
      else Directive(sp, c, i + 1, args)
  }

  // ----- Values -----

  function Unsigned(n: int, range: int): nat
    requires range > 0
  {
    n % range
  }

  function Signed(n: int, range: int): int
    requires range > 0
  {
    if n % range < range / 2 then n % range else n % range - range
  }

  /** The argument as an unsigned conversion loads it, on a 32-bit machine. */
  function LoadUnsigned(sp: Spec, n: int): (v: nat)
    ensures v < UINTMAX_RANGE
  {
    if sp.j || sp.q then Unsigned(n, UINTMAX_RANGE)
    else if sp.t then Unsigned(Signed(n, 0x1_0000_0000), UINTMAX_RANGE)
    else if sp.l || sp.z then Unsigned(n, 0x1_0000_0000)
    else if sp.h then Unsigned(n, 0x1_0000)
    else if sp.hh then Unsigned(n, 0x100)
    else Unsigned(n, 0x1_0000_0000)
  }

  /** The same for a signed conversion; plain char is unsigned. */
  function LoadSigned(sp: Spec, n: int): (v: int)
    ensures -(UINTMAX_RANGE / 2) <= v < UINTMAX_RANGE / 2
  {
    if sp.j || sp.q then Signed(n, UINTMAX_RANGE)
    else if sp.t || sp.l || sp.z then Signed(n, 0x1_0000_0000)
    else if sp.h then Signed(n, 0x1_0000)
    else if sp.hh then Unsigned(n, 0x100)
    else Signed(n, 0x1_0000_0000)
  }

  // ----- Conversions -----

  predicate IsNumeric(conv: char) {
    conv in {'d', 'i', 'o', 'p', 'r', 'u', 'X', 'x', 'y'}
  }

  predicate Unmodelled(conv: char) {
    conv in {'b', 'D', 'n', NUL}
  }

  predicate Known(conv: char) {
    conv == '%' || conv == 'c' || conv == 's' || IsNumeric(conv)
  }

  function Base(conv: char, radix: nat): nat {
    if conv == 'o' then 8
    else if conv == 'r' then radix
    else if conv in {'p', 'X', 'x', 'y'} then 16
    else 10
  }

  predicate IsSigned(conv: char, sp: Spec) {
    conv in {'d', 'i', 'y'} || (conv == 'r' && sp.sign)
  }

  /** The value a numeric conversion prints. */
  function Printed(conv: char, sp: Spec, n: int): (v: int)
    ensures -(UINTMAX_RANGE / 2) <= v < UINTMAX_RANGE
  {
    if IsSigned(conv, sp) then LoadSigned(sp, n)
    else if conv == 'p' then Unsigned(n, 0x1_0000_0000)
    else LoadUnsigned(sp, n)
  }

  function LayoutOf(conv: char, sp: Spec): Layout {
    Layout(sp.width, sp.dwidth, sp.ladjust, sp.padc == '0', if conv == 'p' then sp.width == 0 else sp.sharp)
  }

  function Abs(v: int): nat {
    if v < 0 then -v else v
  }

  function NumberText(conv: char, sp: Spec, n: int, radix: nat): string
    requires Radix(radix)
  {
    var v := Printed(conv, sp, n);
    NumberField(Abs(v), v < 0, Base(conv, radix), conv == 'X', LayoutOf(conv, sp))
  }

  /** %c and %s pad with the fill character. */
  function Padded(s: string, sp: Spec): string {
    var pad := Repeat(sp.padc, sp.width - |s|);
    if sp.ladjust then s + pad else pad + s
  }

  function CharOf(n: int): char {
    (n % 256) as char
  }

  /** A precision cuts the string off. */
  function Cut(s: string, sp: Spec): string {
    if !sp.dot || sp.dwidth >= |s| then s else if sp.dwidth <= 0 then "" else s[..sp.dwidth]
  }

  function Convert(d: Directive, radix: nat): string
    requires Radix(radix) && Known(d.conv)
  {
    if d.conv == '%' then "%"
    else if d.conv == 'c' then Padded([CharOf(NextInt(d.args))], d.sp)
    else if d.conv == 's' then Padded(Cut(NextStr(d.args), d.sp), d.sp)
    else NumberText(d.conv, d.sp, NextInt(d.args), radix)
  }

  function ArgsAfter(d: Directive): seq<Arg> {
    if d.conv == '%' then d.args else Rest(d.args)
  }

  /** What the format stands for from position i on; None if a conversion is not
      modelled.  After an unknown conversion the rest is copied as it is. */
  function Format(fmt: string, i: nat, args: seq<Arg>, radix: nat): Option<string>
    requires i <= |fmt| && Radix(radix)
    decreases |fmt| - i
  {
    if i == |fmt| then Some("")
    else if fmt[i] != '%' then Then([fmt[i]], Format(fmt, i + 1, args, radix))
    else
      var d := ReadDirective(fmt, i + 1, FRESH, args);
      if Unmodelled(d.conv) then None
      else if Known(d.conv) then Then(Convert(d, radix), Format(fmt, d.next, ArgsAfter(d), radix))
      else Some(fmt[i..])
  }

  function Then(s: string, rest: Option<string>): Option<string> {
    if rest.Some? then Some(s + rest.value) else None
  }

  function ClampRadix(radix: int): (r: nat)
    ensures Radix(r)
  {
    if radix < 2 || radix > 36 then 10 else radix
  }

  /** Text without % is copied. */
  lemma {:induction false} PlainText(fmt: string, i: nat, args: seq<Arg>, radix: nat)
    requires i <= |fmt| && Radix(radix) && forall k :: i <= k < |fmt| ==> fmt[k] != '%'
    ensures Format(fmt, i, args, radix) == Some(fmt[i..])
    decreases |fmt| - i
  {
    if i < |fmt| {
      PlainText(fmt, i + 1, args, radix);
      assert fmt[i..] == [fmt[i]] + fmt[i + 1..];
    } else {
      assert fmt[i..] == "";
    }
  }

  // ----- Formats compose -----

  /** The arguments left over by a format that is understood to its end. */
  function Left(fmt: string, i: nat, args: seq<Arg>): Option<seq<Arg>>
    requires i <= |fmt|
    decreases |fmt| - i
  {
    if i == |fmt| then Some(args)
    else if fmt[i] != '%' then Left(fmt, i + 1, args)
    else
      var d := ReadDirective(fmt, i + 1, FRESH, args);
      if Known(d.conv) then Left(fmt, d.next, ArgsAfter(d)) else None
  }

  lemma {:induction false} ScanPrefix(a: string, b: string, i: nat, acc: int)
    requires i <= |a| && ScanEnd(a, i) < |a|
    ensures ScanEnd(a + b, i) == ScanEnd(a, i) && ScanNumber(a + b, i, acc) == ScanNumber(a, i, acc)
    decreases |a| - i
  {
    if i < |a| && IsDigit(a[i]) { ScanPrefix(a, b, i + 1, acc * 10 + (a[i] - '0') as int); }
  }

  lemma {:induction false} ScanSuffix(a: string, b: string, i: nat, acc: int)
    requires i <= |b|
    ensures ScanEnd(a + b, |a| + i) == |a| + ScanEnd(b, i)
    ensures ScanNumber(a + b, |a| + i, acc) == ScanNumber(b, i, acc)
    decreases |b| - i
  {
    if i < |b| && IsDigit(b[i]) { ScanSuffix(a, b, i + 1, acc * 10 + (b[i] - '0') as int); }
  }

  /** A directive that is complete within a is the same in a + b. */
  lemma {:induction false} DirectivePrefix(a: string, b: string, i: nat, sp: Spec, args: seq<Arg>)
    requires i <= |a| && ReadDirective(a, i, sp, args).conv != NUL
    ensures ReadDirective(a + b, i, sp, args) == ReadDirective(a, i, sp, args)
    decreases |a| - i
  {
    var c := a[i];
    if Flag(sp, c).Some? {
      DirectivePrefix(a, b, i + 1, Flag(sp, c).value, args);
    } else if c == '*' {
      DirectivePrefix(a, b, i + 1, Star(sp, NextInt(args)), Rest(args));
    } else if IsDigit(c) {
      ScanPrefix(a, b, i, 0);
      DirectivePrefix(a, b, ScanEnd(a, i), WithNumber(sp, ScanNumber(a, i, 0)), args);
    }
  }

  lemma {:induction false} DirectiveSuffix(a: string, b: string, i: nat, sp: Spec, args: seq<Arg>)
    requires i <= |b|
    ensures var d := ReadDirective(b, i, sp, args);
            ReadDirective(a + b, |a| + i, sp, args) == d.(next := |a| + d.next)
    decreases |b| - i
  {
    if i == |b| {
    } else {
      var c := b[i];
      if Flag(sp, c).Some? {
        DirectiveSuffix(a, b, i + 1, Flag(sp, c).value, args);
      } else if c == '*' {
        DirectiveSuffix(a, b, i + 1, Star(sp, NextInt(args)), Rest(args));
      } else if IsDigit(c) {
        ScanSuffix(a, b, i, 0);
        DirectiveSuffix(a, b, ScanEnd(b, i), WithNumber(sp, ScanNumber(b, i, 0)), args);
      }
    }
  }

  lemma SuffixAtDirective(a: string, b: string, i: nat, args: seq<Arg>, radix: nat)
    requires i < |b| && b[i] == '%' && Radix(radix)
    requires var d := ReadDirective(b, i + 1, FRESH, args);
             Format(a + b, |a| + d.next, ArgsAfter(d), radix) == Format(b, d.next, ArgsAfter(d), radix)
    ensures Format(a + b, |a| + i, args, radix) == Format(b, i, args, radix)
  {
    DirectiveSuffix(a, b, i + 1, FRESH, args);
    var d, d' := ReadDirective(b, i + 1, FRESH, args), ReadDirective(a + b, |a| + i + 1, FRESH, args);
    assert d' == d.(next := |a| + d.next);
    assert Known(d.conv) ==> Convert(d', radix) == Convert(d, radix);
    assert (a + b)[|a| + i..] == b[i..];
  }

  /** What a format stands for does not depend on what comes before it. */
  lemma {:induction false} FormatSuffix(a: string, b: string, i: nat, args: seq<Arg>, radix: nat)
    requires i <= |b| && Radix(radix)
    ensures Format(a + b, |a| + i, args, radix) == Format(b, i, args, radix)
    decreases |b| - i
  {
    if i == |b| {
    } else {
      if b[i] != '%' {
        FormatSuffix(a, b, i + 1, args, radix);
      } else {
        var d := ReadDirective(b, i + 1, FRESH, args);
        FormatSuffix(a, b, d.next, ArgsAfter(d), radix);
        SuffixAtDirective(a, b, i, args, radix);
      }
    }
  }

  /** Formats compose: a + b stands for what a stands for, followed by what b stands for
      with the arguments that a leaves over. */
  lemma {:induction false} FormatConcat(a: string, b: string, i: nat, args: seq<Arg>, radix: nat)
    requires i <= |a| && Radix(radix) && Left(a, i, args).Some?
    ensures Format(a, i, args, radix).Some?
    ensures Format(a + b, i, args, radix)
         == Then(Format(a, i, args, radix).value, Format(b, 0, Left(a, i, args).value, radix))
    decreases |a| - i
  {
    if i == |a| {
      FormatSuffix(a, b, 0, args, radix);
      var rest := Format(b, 0, args, radix);
      assert rest.Some? ==> "" + rest.value == rest.value;
    } else if a[i] != '%' {
      FormatConcat(a, b, i + 1, args, radix);
      AppendPiece([a[i]], Format(a, i + 1, args, radix).value, Format(b, 0, Left(a, i, args).value, radix));
    } else {
      DirectivePrefix(a, b, i + 1, FRESH, args);
      var d := ReadDirective(a, i + 1, FRESH, args);
      FormatConcat(a, b, d.next, ArgsAfter(d), radix);
      AppendPiece(Convert(d, radix), Format(a, d.next, ArgsAfter(d), radix).value,
                  Format(b, 0, Left(a, i, args).value, radix));
    }
  }

  // ----- Numbers and fields -----

  /** A width or precision in the format is read as the decimal number it shows. */
  lemma {:induction false} ScanIsDecimal(fmt: string, i: nat, j: nat, acc: int)
    requires i <= j <= |fmt| && acc == Value(fmt[i..j], 10) && ScanEnd(fmt, i) == ScanEnd(fmt, j)
    ensures ScanNumber(fmt, j, acc) == Value(fmt[i..ScanEnd(fmt, i)], 10)
    decreases |fmt| - j
  {
    if j < |fmt| && IsDigit(fmt[j]) {
      var s := fmt[i..j + 1];
      assert s[..|s| - 1] == fmt[i..j] && DigitValue(s[|s| - 1]) == (fmt[j] - '0') as int;
      ScanIsDecimal(fmt, i, j + 1, acc * 10 + (fmt[j] - '0') as int);
    }
  }

  /** %c and %s: the text stands at the left or the right end of a field that is as wide as
      asked, and the rest of the field is fill. */
  lemma PaddedField(s: string, sp: Spec)
    ensures var f := Padded(s, sp);
            && |f| == Max(sp.width, |s|)
            && (if sp.ladjust then f[..|s|] == s && (forall k :: |s| <= k < |f| ==> f[k] == sp.padc)
                else f[|f| - |s|..] == s && (forall k :: 0 <= k < |f| - |s| ==> f[k] == sp.padc))
  {
  }

  /** Every number printed by a numeric conversion reads back as the value loaded. */
  lemma PrintedReadsBack(conv: char, sp: Spec, n: int, radix: nat)
    requires Radix(radix) && IsNumeric(conv)
    ensures ReadNumber(NumberText(conv, sp, n, radix), Base(conv, radix)) == Printed(conv, sp, n)
  {
    var v := Printed(conv, sp, n);
    FieldReadsBack(Abs(v), v < 0, Base(conv, radix), conv == 'X', LayoutOf(conv, sp));
  }

  // ----- What flags, lengths and conversions mean -----

  const RANGE8 := 0x100
  const RANGE16 := 0x1_0000
  const RANGE32 := 0x1_0000_0000
  const RANGE64 := 0x1_0000_0000_0000_0000

  /** The value v is n, wrapped into the signed numbers of this range. */
  predicate WrapsSigned(v: int, n: int, range: int)
    requires range > 0
  {
    (v - n) % range == 0 && -(range / 2) <= v < range / 2
  }

  predicate WrapsUnsigned(v: int, n: int, range: int)
    requires range > 0
  {
    (v - n) % range == 0 && 0 <= v < range
  }

  lemma SignedWraps(n: int, range: int)
    requires range > 0 && range % 2 == 0
    ensures WrapsSigned(Signed(n, range), n, range)
  {
    var q, v := n / range, Signed(n, range);
    var k := if n % range < range / 2 then -q else -q - 1;
    Multiple(n, range, q);
    assert v - n == k * range;
    RemainderUnique(v - n, range, k, 0);
  }

  lemma UnsignedWraps(n: int, range: int)
    requires range > 0
    ensures WrapsUnsigned(Unsigned(n, range), n, range)
  {
    var q := n / range;
    Multiple(n, range, q);
    RemainderUnique(n % range - n, range, -q, 0);
  }

  lemma Multiple(n: int, range: int, q: int)
    requires range > 0 && q == n / range
    ensures n % range - n == -q * range && n % range - range - n == (-q - 1) * range
  {
    assert n == range * q + n % range;
  }

  lemma SignedValue(conv: char, sp: Spec, n: int)
    requires conv == 'd' || conv == 'i' || conv == 'y' || (conv == 'r' && sp.sign)
    ensures var v := Printed(conv, sp, n);
            if sp.j || sp.q then WrapsSigned(v, n, RANGE64)
            else if sp.t || sp.l || sp.z then WrapsSigned(v, n, RANGE32)
            else if sp.h then WrapsSigned(v, n, RANGE16)
            else if sp.hh then WrapsUnsigned(v, n, RANGE8)
            else WrapsSigned(v, n, RANGE32)
  {
    SignedWraps(n, RANGE64);
    SignedWraps(n, RANGE32);
    SignedWraps(n, RANGE16);
    UnsignedWraps(n, RANGE8);
  }

  lemma UnsignedValue(conv: char, sp: Spec, n: int)
    requires conv == 'u' || conv == 'o' || conv == 'x' || conv == 'X' || (conv == 'r' && !sp.sign)
    ensures var v := Printed(conv, sp, n);
            if sp.j || sp.q then WrapsUnsigned(v, n, RANGE64)
            else if sp.t then
              0 <= v < RANGE64 && WrapsSigned(if v < RANGE64 / 2 then v else v - RANGE64, n, RANGE32)
            else if sp.l || sp.z then WrapsUnsigned(v, n, RANGE32)
            else if sp.h then WrapsUnsigned(v, n, RANGE16)
            else if sp.hh then WrapsUnsigned(v, n, RANGE8)
            else WrapsUnsigned(v, n, RANGE32)
  {
    UnsignedWraps(n, RANGE64);
    UnsignedWraps(n, RANGE32);
    UnsignedWraps(n, RANGE16);
    UnsignedWraps(n, RANGE8);
    SignedWraps(n, RANGE32);
    Extended(Signed(n, RANGE32));
  }

  lemma Extended(v: int)
    requires -RANGE32 <= v < RANGE32
    ensures Unsigned(v, RANGE64) == if v < 0 then v + RANGE64 else v
  {
  }

  lemma BaseMeaning(conv: char, radix: nat)
    requires IsNumeric(conv)
    ensures conv == 'd' || conv == 'i' || conv == 'u' ==> Base(conv, radix) == 10
    ensures conv == 'o' ==> Base(conv, radix) == 8
    ensures conv == 'r' ==> Base(conv, radix) == radix
    ensures conv == 'p' || conv == 'x' || conv == 'X' || conv == 'y' ==> Base(conv, radix) == 16
  {
  }

  /** %d and %i print in base 10, %y in base 16 and %r with a plus in the radix: the argument,
      wrapped to the length asked for; %hhd takes an unsigned character. */
  lemma SignedReadsBack(conv: char, sp: Spec, n: int, radix: nat)
    requires Radix(radix) && (conv == 'd' || conv == 'i' || conv == 'y' || (conv == 'r' && sp.sign))
    ensures var base := if conv == 'y' then 16 else if conv == 'r' then radix else 10;
            var v := ReadNumber(NumberText(conv, sp, n, radix), base);
            if sp.j || sp.q then WrapsSigned(v, n, RANGE64)
            else if sp.t || sp.l || sp.z then WrapsSigned(v, n, RANGE32)
            else if sp.h then WrapsSigned(v, n, RANGE16)
            else if sp.hh then WrapsUnsigned(v, n, RANGE8)
            else WrapsSigned(v, n, RANGE32)
  {
    BaseMeaning(conv, radix);
    PrintedReadsBack(conv, sp, n, radix);
    SignedValue(conv, sp, n);
  }

  /** %u prints in base 10, %o in base 8, %x and %X in base 16 and %r without a plus in the
      radix, all without a sign; %t takes a signed argument and shows it as 64 bits. */
  lemma UnsignedReadsBack(conv: char, sp: Spec, n: int, radix: nat)
    requires Radix(radix)
    requires conv == 'u' || conv == 'o' || conv == 'x' || conv == 'X' || (conv == 'r' && !sp.sign)
    ensures var base := if conv == 'u' then 10 else if conv == 'o' then 8 else if conv == 'r' then radix else 16;
            var v := ReadNumber(NumberText(conv, sp, n, radix), base);
            if sp.j || sp.q then WrapsUnsigned(v, n, RANGE64)
            else if sp.t then
              0 <= v < RANGE64 && WrapsSigned(if v < RANGE64 / 2 then v else v - RANGE64, n, RANGE32)
            else if sp.l || sp.z then WrapsUnsigned(v, n, RANGE32)
            else if sp.h then WrapsUnsigned(v, n, RANGE16)
            else if sp.hh then WrapsUnsigned(v, n, RANGE8)
            else WrapsUnsigned(v, n, RANGE32)
  {
    BaseMeaning(conv, radix);
    PrintedReadsBack(conv, sp, n, radix);
    UnsignedValue(conv, sp, n);
  }

  /** %p prints an address in base 16. */
  lemma PointerReadsBack(sp: Spec, n: int, radix: nat)
    requires Radix(radix)
    ensures WrapsUnsigned(ReadNumber(NumberText('p', sp, n, radix), 16), n, RANGE32)
  {
    BaseMeaning('p', radix);
    PrintedReadsBack('p', sp, n, radix);
    UnsignedWraps(n, RANGE32);
  }

  lemma InRange(v: int, n: int)
    requires (v - n) % RANGE32 == 0 && -RANGE32 < v - n < RANGE32
    ensures v == n
  {
  }

  /** So a plain %d prints every int. */
  lemma PlainSigned(conv: char, n: int, radix: nat)
    requires Radix(radix) && (conv == 'd' || conv == 'i') && -0x8000_0000 <= n < 0x8000_0000
    ensures ReadNumber(NumberText(conv, FRESH, n, radix), 10) == n
  {
    SignedReadsBack(conv, FRESH, n, radix);
    InRange(ReadNumber(NumberText(conv, FRESH, n, radix), 10), n);
  }

  /** And a plain %u, %o, %x or %X every unsigned one. */
  lemma PlainUnsigned(conv: char, n: int, radix: nat)
    requires Radix(radix) && (conv == 'u' || conv == 'o' || conv == 'x' || conv == 'X') && 0 <= n < 0x1_0000_0000
    ensures ReadNumber(NumberText(conv, FRESH, n, radix), if conv == 'u' then 10 else if conv == 'o' then 8 else 16)
         == n
  {
    UnsignedReadsBack(conv, FRESH, n, radix);
    var base := if conv == 'u' then 10 else if conv == 'o' then 8 else 16;
    InRange(ReadNumber(NumberText(conv, FRESH, n, radix), base), n);
  }

  /** The field of a number: a minus sign exactly for a negative one, capitals exactly for %X,
      the minus flag to the left, the zero flag with zeros, the sharp flag with a prefix,
      which %p has exactly without a width. */
  lemma NumberTextShape(conv: char, sp: Spec, n: int, radix: nat)
    requires Radix(radix) && IsNumeric(conv)
    ensures var base := if conv == 'd' || conv == 'i' || conv == 'u' then 10
                        else if conv == 'o' then 8 else if conv == 'r' then radix else 16;
            var v := Printed(conv, sp, n);
            var sharp := if conv == 'p' then sp.width == 0 else sp.sharp;
            NumberText(conv, sp, n, radix)
            == NumberField(if v < 0 then -v else v, v < 0, base, conv == 'X',
                           Layout(sp.width, sp.dwidth, sp.ladjust, sp.padc == '0', sharp))
  {
    BaseMeaning(conv, radix);
  }

  /** The conversions that are not numbers: a percent sign; one character; a string, "(null)"
      for none, of which a precision shows only the beginning. */
  lemma TextConversions(sp: Spec, next: nat, args: seq<Arg>, radix: nat)
    requires Radix(radix)
    ensures Convert(Directive(sp, '%', next, args), radix) == "%"
    ensures args != [] && args[0].Int? && 0 <= args[0].n < 256 ==>
              Convert(Directive(sp, 'c', next, args), radix) == Padded([args[0].n as char], sp)
    ensures args != [] && !args[0].Int? ==>
              var s := if args[0].Str? then args[0].s else "(null)";
              var shown := if !sp.dot || sp.dwidth > |s| then |s| else if sp.dwidth < 0 then 0 else sp.dwidth;
              Convert(Directive(sp, 's', next, args), radix) == Padded(s[..shown], sp)
    ensures ArgsAfter(Directive(sp, '%', next, args)) == args
    ensures args != [] ==> forall c :: c != '%' ==> ArgsAfter(Directive(sp, c, next, args)) == args[1..]
  {
    if args != [] && !args[0].Int? {
      var s := if args[0].Str? then args[0].s else "(null)";
      assert s[..|s|] == s && s[..0] == "";
    }
  }

  /** Each flag and length character sets its own field and is passed over. */
  lemma FlagMeaning(fmt: string, i: nat, sp: Spec, args: seq<Arg>)
    requires i < |fmt|
    ensures var d := ReadDirective(fmt, i, sp, args);
            && (fmt[i] == '-' ==> d == ReadDirective(fmt, i + 1, sp.(ladjust := true), args))
            && (fmt[i] == '#' ==> d == ReadDirective(fmt, i + 1, sp.(sharp := true), args))
            && (fmt[i] == '+' ==> d == ReadDirective(fmt, i + 1, sp.(sign := true), args))
            && (fmt[i] == '.' ==> d == ReadDirective(fmt, i + 1, sp.(dot := true), args))
            && (fmt[i] == '0' && !sp.dot ==> d == ReadDirective(fmt, i + 1, sp.(padc := '0'), args))
            && (fmt[i] == 'j' ==> d == ReadDirective(fmt, i + 1, sp.(j := true), args))
            && (fmt[i] == 'q' ==> d == ReadDirective(fmt, i + 1, sp.(q := true), args))
            && (fmt[i] == 't' ==> d == ReadDirective(fmt, i + 1, sp.(t := true), args))
            && (fmt[i] == 'z' ==> d == ReadDirective(fmt, i + 1, sp.(z := true), args))
            && (fmt[i] == 'l' && !sp.l ==> d == ReadDirective(fmt, i + 1, sp.(l := true), args))
            && (fmt[i] == 'l' && sp.l ==> d == ReadDirective(fmt, i + 1, sp.(l := false, q := true), args))
            && (fmt[i] == 'h' && !sp.h ==> d == ReadDirective(fmt, i + 1, sp.(h := true), args))
            && (fmt[i] == 'h' && sp.h ==> d == ReadDirective(fmt, i + 1, sp.(h := false, hh := true), args))
  {
  }

  /** A star takes an int argument: a precision after the point, otherwise a width, of which a
      negative one turns the side around. */
  lemma StarMeaning(fmt: string, i: nat, sp: Spec, n: int, args: seq<Arg>)
    requires i < |fmt| && fmt[i] == '*'
    ensures ReadDirective(fmt, i, sp, [Int(n)] + args)
         == ReadDirective(fmt, i + 1,
                          if sp.dot then sp.(dwidth := n)
                          else if n < 0 then sp.(width := -n, ladjust := !sp.ladjust)
                          else sp.(width := n), args)
  {
    assert Rest([Int(n)] + args) == args;
  }

  /** A run of digits is a precision after the point, otherwise a width, in decimal; e is where
      it ends. */
  lemma DigitsMeaning(fmt: string, i: nat, e: nat, sp: Spec, args: seq<Arg>)
    requires i < e <= |fmt| && (forall k :: i <= k < e ==> IsDigit(fmt[k]))
    requires (e == |fmt| || !IsDigit(fmt[e])) && (fmt[i] == '0' ==> sp.dot)
    ensures var n := Value(fmt[i..e], 10);
            ReadDirective(fmt, i, sp, args)
            == ReadDirective(fmt, e, if sp.dot then sp.(dwidth := n) else sp.(width := n), args)
  {
    ScanEndIs(fmt, i, e);
    assert fmt[i..i] == "";
    ScanIsDecimal(fmt, i, i, 0);
  }

  lemma {:induction false} ScanEndIs(fmt: string, i: nat, e: nat)
    requires i <= e <= |fmt| && (forall k :: i <= k < e ==> IsDigit(fmt[k]))
    requires e == |fmt| || !IsDigit(fmt[e])
    ensures ScanEnd(fmt, i) == e
    decreases e - i
  {
    if i == e {
    } else {
      ScanEndIs(fmt, i + 1, e);
    }
  }

  /** Any other character ends the directive; the conversions understood are these, and from
      one that is not on the text stands as it is. */
  lemma ConversionMeaning(fmt: string, i: nat, sp: Spec, args: seq<Arg>)
    requires i < |fmt| && fmt[i] !in {'-', '#', '+', '.', '*', 'j', 'q', 't', 'z', 'l', 'h'} && !IsDigit(fmt[i])
    ensures ReadDirective(fmt, i, sp, args) == Directive(sp, fmt[i], i + 1, args)
    ensures Known(fmt[i]) <==> fmt[i] in {'%', 'c', 's', 'd', 'i', 'o', 'p', 'r', 'u', 'X', 'x', 'y'}
  {
  }

  lemma UnknownMeaning(fmt: string, i: nat, args: seq<Arg>, radix: nat)
    requires i < |fmt| && fmt[i] == '%' && Radix(radix)
    requires ReadDirective(fmt, i + 1, FRESH, args).conv
               !in {'%', 'c', 's', 'd', 'i', 'o', 'p', 'r', 'u', 'X', 'x', 'y', 'b', 'D', 'n', NUL}
    ensures Format(fmt, i, args, radix) == Some(fmt[i..])
  {
  }

  /** A concrete field: eight, in decimal. */
  lemma EightExample()
    ensures NumberText('d', FRESH, 8, 10) == "8"
  {
    var l := LayoutOf('d', FRESH);
    assert Printed('d', FRESH, 8) == 8;
    assert Digits(8, 10, false) == "8";
    assert Repeat('0', -1) == "" && Repeat(' ', -1) == "";
    assert Sign(false) == "" && Prefix(8, 10, l) == "" && MinDigits(8, false, 10, l) == 0;
    assert "" + "8" == "8";
    assert Body(8, false, 10, false, l) == "8";
  }

  /** A radix that cannot be used is ten. */
  lemma RadixMeaning(radix: int)
    ensures ClampRadix(radix) == if 2 <= radix <= 36 then radix else 10
  {
  }

  // ----- kvprintf -----

  /** What PCHAR writes to: the characters handed to the output function, and the count
      that kvprintf returns. */
  class Output {
    var text: string
    var retval: int

    ghost predicate Valid()
      reads this
    {
      retval == |text|
    }

    constructor ()
      ensures Valid() && text == ""
    {
      text, retval := "", 0;
    }

    method PutChar(c: char)
      requires Valid()
      modifies this
      ensures Valid() && text == old(text) + [c]
    {
      text := text + [c];
      retval := retval + 1;
    }

    method Pad(c: char, n: int)
      requires Valid()
      modifies this
      ensures Valid() && text == old(text) + Repeat(c, n)
    {
      var k := n;
      ghost var t := text;
      while k > 0
        invariant Valid() && text + Repeat(c, k) == t + Repeat(c, n)
        decreases k
      {
        Assoc(text, [c], Repeat(c, k - 1));
        PutChar(c);
        k := k - 1;
      }
      assert text + Repeat(c, k) == text;
    }

    method PutString(s: string)
      requires Valid()
      modifies this
      ensures Valid() && text == old(text) + s
    {
      for i := 0 to |s|
        invariant Valid() && text == old(text) + s[..i]
      {
        assert s[..i + 1] == s[..i] + [s[i]];
        Assoc(old(text), s[..i], [s[i]]);
        PutChar(s[i]);
      }
      assert s[..|s|] == s;
    }

    /** The digits of nbuf, from the last one stored down to the NUL. */
    method PutDigits(nbuf: array<char>, len: nat, ghost digits: string)
      requires Valid()
      requires len == |digits| && Reversed(nbuf, digits) && forall i :: 0 <= i < |digits| ==> digits[i] != NUL
      modifies this
      ensures Valid() && text == old(text) + digits
    {
      var p := len;
      while nbuf[p] != NUL
        invariant Valid() && 0 <= p <= len && text == old(text) + digits[..len - p]
        invariant nbuf[p] == if p == 0 then NUL else digits[len - p]
        decreases p
      {
        assert digits[..len - p + 1] == digits[..len - p] + [nbuf[p]];
        Assoc(old(text), digits[..len - p], [nbuf[p]]);
        PutChar(nbuf[p]);
        p := p - 1;
        assert p > 0 ==> nbuf[len - (len - p)] == digits[len - p];
      }
      assert digits[..len] == digits;
    }

    method PutPrefix(num: nat, base: nat, l: Layout)
      requires Valid()
      modifies this
      ensures Valid() && text == old(text) + Prefix(num, base, l)
    {
      if l.sharp && num != 0 {
        if base == 8 {
          PutChar('0');
        } else if base == 16 {
          PutChar('0');
          PutChar('x');
        }
      }
    }

    method PutBody(num: nat, neg: bool, base: nat, upper: bool, l: Layout, nbuf: array<char>, n: nat, dwidth: int)
      requires Valid() && Radix(base)
      requires n == |Digits(num, base, upper)| && Reversed(nbuf, Digits(num, base, upper))
      requires forall i :: 0 <= i < n ==> Digits(num, base, upper)[i] != NUL
      requires dwidth == MinDigits(num, neg, base, l) - n
      modifies this
      ensures Valid() && text == old(text) + Body(num, neg, base, upper, l)
    {
      ghost var t := text;
      if neg { PutChar('-'); }
      assert text == t + Sign(neg);
      PutPrefix(num, base, l);
      Pad('0', dwidth);
      ghost var digits := Digits(num, base, upper);
      PutDigits(nbuf, n, digits);
      Assoc4(t, Sign(neg), Prefix(num, base, l), Repeat('0', dwidth), digits);
    }

    /** How many characters sign and prefix take. */
    method Extra(num: nat, neg: bool, base: nat, l: Layout) returns (tmp: nat)
      ensures tmp == |Sign(neg)| + |Prefix(num, base, l)|
    {
      tmp := 0;
      if l.sharp && num != 0 {
        if base == 8 { tmp := tmp + 1; } else if base == 16 { tmp := tmp + 2; }
      }
      if neg { tmp := tmp + 1; }
    }

    /** Blanks on one side of what PutBody prints. */
    method PutField(num: nat, neg: bool, base: nat, upper: bool, l: Layout, nbuf: array<char>, n: nat,
                    width: int, dwidth: int)
      requires Valid() && Radix(base)
      requires n == |Digits(num, base, upper)| && Reversed(nbuf, Digits(num, base, upper))
      requires dwidth == MinDigits(num, neg, base, l) - n && width == l.width - |Body(num, neg, base, upper, l)|
      modifies this
      ensures Valid() && text == old(text) + NumberField(num, neg, base, upper, l)
    {
      ghost var t, body := text, Body(num, neg, base, upper, l);
      DigitsNotNul(num, base, upper);
      if l.ladjust {
        PutBody(num, neg, base, upper, l, nbuf, n, dwidth);
        Pad(' ', width);
        Assoc(t, body, Repeat(' ', width));
      } else {
        Pad(' ', width);
        PutBody(num, neg, base, upper, l, nbuf, n, dwidth);
        Assoc(t, Repeat(' ', width), body);
      }
    }

    /** The code after the label `number`. */
    method PutNumber(num: nat, neg: bool, base: nat, upper: bool, l: Layout)
      requires Valid() && Radix(base) && num < UINTMAX_RANGE
      modifies this
      ensures Valid() && text == old(text) + NumberField(num, neg, base, upper, l)
    {
      var nbuf := new char[MAXNBUF];
      var n := Ksprintn(nbuf, num, base, upper);
      var tmp := Extra(num, neg, base, l);
      var width, dwidth := l.width, l.dwidth;
      if !l.ladjust && l.zeroPad { dwidth := width - tmp; }
      width := width - (tmp + Max(dwidth, n));
      dwidth := dwidth - n;
      BodyLength(num, neg, base, upper, l);
      PutField(num, neg, base, upper, l, nbuf, n, width, dwidth);
    }

    method PutPadded(s: string, sp: Spec)
      requires Valid()
      modifies this
      ensures Valid() && text == old(text) + Padded(s, sp)
    {
      ghost var t := text;
      var width := sp.width - |s|;
      if !sp.ladjust && width > 0 { Pad(sp.padc, width); }
      PutString(s);
      if sp.ladjust && width > 0 { Pad(sp.padc, width); }
      ghost var pad := Repeat(sp.padc, width);
      Assoc(t, s, pad);
      Assoc(t, pad, s);
      assert width <= 0 ==> pad + s == s && s + pad == s;
    }

    /** The switch over the conversion character. */
    method PutConversion(d: Directive, radix: nat) returns (rest: seq<Arg>)
      requires Valid() && Radix(radix) && Known(d.conv)
      modifies this
      ensures Valid() && text == old(text) + Convert(d, radix) && rest == ArgsAfter(d)
    {
      if d.conv == '%' {
        PutChar('%');
        return d.args;
      } else if d.conv == 'c' {
        PutPadded([CharOf(NextInt(d.args))], d.sp);
      } else if d.conv == 's' {
        PutPadded(Cut(NextStr(d.args), d.sp), d.sp);
      } else {
        var v := Printed(d.conv, d.sp, NextInt(d.args));
        PutNumber(Abs(v), v < 0, Base(d.conv, radix), d.conv == 'X', LayoutOf(d.conv, d.sp));
      }
      rest := Rest(d.args);
    }
  }

  lemma Assoc(a: string, b: string, c: string)
    ensures a + b + c == a + (b + c)
  {
  }

  lemma Assoc4(a: string, b: string, c: string, d: string, e: string)
    ensures a + b + c + d + e == a + (b + (c + (d + e)))
  {
  }

  lemma DigitsNotNul(num: nat, base: nat, upper: bool)
    requires Radix(base)
    ensures forall i :: 0 <= i < |Digits(num, base, upper)| ==> Digits(num, base, upper)[i] != NUL
  {
    DigitsDenote(num, base, upper);
    var s := Digits(num, base, upper);
    forall i | 0 <= i < |s| ensures s[i] != NUL { assert DigitValue(s[i]) >= 0; }
  }

  /** The loop behind the label `reswitch`. */
  method ScanDirective(fmt: string, start: nat, args: seq<Arg>) returns (d: Directive)
    requires start <= |fmt|
    ensures d == ReadDirective(fmt, start, FRESH, args)
  {
    var sp, i, rest := FRESH, start, args;
    while i < |fmt|
      invariant start <= i <= |fmt|
      invariant ReadDirective(fmt, start, FRESH, args) == ReadDirective(fmt, i, sp, rest)
      decreases |fmt| - i
    {
      var c := fmt[i];
      var f := Flag(sp, c);
      if f.Some? {
        sp, i := f.value, i + 1;
      } else if c == '*' {
        sp, rest, i := Star(sp, NextInt(rest)), Rest(rest), i + 1;
      } else if IsDigit(c) {
        var n, k := ScanDigits(fmt, i);
        sp, i := WithNumber(sp, n), k;
      } else {
        return Directive(sp, c, i + 1, rest);
      }
    }
    return Directive(sp, NUL, i, rest);
  }

  method ScanDigits(fmt: string, start: nat) returns (n: int, i: nat)
    requires start < |fmt| && IsDigit(fmt[start])
    ensures n == ScanNumber(fmt, start, 0) && i == ScanEnd(fmt, start)
  {
    n, i := 0, start;
    while i < |fmt| && IsDigit(fmt[i])
      invariant start <= i <= |fmt|
      invariant ScanNumber(fmt, start, 0) == ScanNumber(fmt, i, n) && ScanEnd(fmt, start) == ScanEnd(fmt, i)
    {
      n := n * 10 + (fmt[i] - '0') as int;
      i := i + 1;
    }
  }

  /** kvprintf: the characters handed to the output function, and their number. */
  method Kvprintf(fmt: Option<string>, args: seq<Arg>, radix: int) returns (out: string, retval: int)
    requires Format(FormatOf(fmt), 0, args, ClampRadix(radix)).Some?
    ensures Format(FormatOf(fmt), 0, args, ClampRadix(radix)) == Some(out)
    ensures retval == |out|
  {
    var o := new Output();
    Run(o, FormatOf(fmt), args, ClampRadix(radix));
    out, retval := o.text, o.retval;
  }

  /** A NULL format is replaced. */
  function FormatOf(fmt: Option<string>): string {
    if fmt.Some? then fmt.value else "(fmt null)\n"
  }

  /** What is still to come: after an unknown conversion, the text as it stands. */
  function Remaining(fmt: string, i: nat, args: seq<Arg>, radix: nat, stop: bool): Option<string>
    requires i <= |fmt| && Radix(radix)
  {
    if stop then Some(fmt[i..]) else Format(fmt, i, args, radix)
  }

  method Run(o: Output, fmt: string, args: seq<Arg>, radix: nat)
    requires Radix(radix) && o.Valid() && o.text == "" && Format(fmt, 0, args, radix).Some?
    modifies o
    ensures o.Valid() && Format(fmt, 0, args, radix) == Some(o.text)
  {
    var i: nat, rest, stop := 0, args, false;
    ghost var whole := Format(fmt, 0, args, radix);
    assert Then("", whole) == whole by { assert "" + whole.value == whole.value; }
    while i < |fmt|
      invariant o.Valid() && i <= |fmt| && whole == Then(o.text, Remaining(fmt, i, rest, radix, stop))
      decreases |fmt| - i
    {
      if fmt[i] != '%' || stop {
        AppendOne(o.text, fmt, i, rest, radix, stop);
        o.PutChar(fmt[i]);
        i := i + 1;
      } else {
        i, rest, stop := PutDirective(o, fmt, i, rest, radix);
      }
    }
    assert Remaining(fmt, i, rest, radix, stop) == Some("") && o.text + "" == o.text;
  }

  /** One directive, starting at a %. */
  method PutDirective(o: Output, fmt: string, i: nat, args: seq<Arg>, radix: nat)
    returns (next: nat, rest: seq<Arg>, stop: bool)
    requires Radix(radix) && o.Valid() && i < |fmt| && fmt[i] == '%' && Format(fmt, i, args, radix).Some?
    modifies o
    ensures o.Valid() && i < next <= |fmt|
    ensures Then(old(o.text), Format(fmt, i, args, radix)) == Then(o.text, Remaining(fmt, next, rest, radix, stop))
  {
    var d := ScanDirective(fmt, i + 1, args);
    next, rest, stop := d.next, d.args, false;
    if Known(d.conv) {
      AppendPiece(o.text, Convert(d, radix), Format(fmt, d.next, ArgsAfter(d), radix));
      rest := o.PutConversion(d, radix);
    } else {
      assert fmt[i..] == fmt[i..d.next] + fmt[d.next..];
      AppendPiece(o.text, fmt[i..d.next], Some(fmt[d.next..]));
      o.PutString(fmt[i..d.next]);
      stop := true;
    }
  }

  lemma AppendOne(out: string, fmt: string, i: nat, args: seq<Arg>, radix: nat, stop: bool)
    requires i < |fmt| && Radix(radix) && (stop || fmt[i] != '%')
    ensures Then(out, Remaining(fmt, i, args, radix, stop))
         == Then(out + [fmt[i]], Remaining(fmt, i + 1, args, radix, stop))
  {
    assert fmt[i..] == [fmt[i]] + fmt[i + 1..];
    AppendPiece(out, [fmt[i]], Remaining(fmt, i + 1, args, radix, stop));
  }

  lemma AppendPiece(out: string, piece: string, rest: Option<string>)
    ensures Then(out, Then(piece, rest)) == Then(out + piece, rest)
  {
    if rest.Some? { assert out + (piece + rest.value) == out + piece + rest.value; }
  }

  // ----- snprintk -----

  /** snprintk stores the first characters that fit, then NUL, and nothing past `size`. */
  method Snprintk(str: array<char>, size: nat, fmt: Option<string>, args: seq<Arg>) returns (ret: int)
    requires size <= str.Length && Format(FormatOf(fmt), 0, args, 10).Some?
    modifies str
    ensures ret == |Format(FormatOf(fmt), 0, args, 10).value|
    ensures size >= 1 ==>
              var k := if ret <= size - 1 then ret else size - 1;
              str[..k] == Format(FormatOf(fmt), 0, args, 10).value[..k] && str[k] == NUL
              && forall i :: k < i < str.Length ==> str[i] == old(str[i])
    ensures size == 0 ==> str[..] == old(str[..])
  {
    var out, n := Kvprintf(fmt, args, 10);
    ret := n;
    var at, remain := 0, size;
    for i := 0 to |out|
      invariant at + remain == size && 0 <= at && (size >= 1 ==> remain >= 1)
      invariant at == if size == 0 then 0 else if i <= size - 1 then i else size - 1
      invariant str[..at] == out[..at]
      invariant forall j :: at <= j < str.Length ==> str[j] == old(str[j])
    {
      // snprintk_func
      if remain >= 2 {
        str[at] := out[i];
        at, remain := at + 1, remain - 1;
      }
    }
    if remain >= 1 {
      str[at] := NUL;
    }
  }
}
