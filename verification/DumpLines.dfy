/** The lines of print_hex_dump in kernel/console.c: a prefix, an address or an offset,
    and the row. */
module DumpLines {
  import opened Bits
  import HexDump
  import opened Numbers
  import opened Printf
  import opened Wrappers

  datatype PrefixType = NoPrefix | Address | Offset

  const ADDRESS_FORMAT := "%s%s%p: %s\n"
  const OFFSET_FORMAT := "%s%s%.8x: %s\n"
  const PLAIN_FORMAT := "%s%s%s\n"

  const OFFSET_SPEC := FRESH.(dot := true, dwidth := 8)

  function PrefixArg(prefix: Option<string>): Arg {
    if prefix.Some? then Str(prefix.value) else NullStr
  }

  function PrefixText(prefix: Option<string>): string {
    if prefix.Some? then prefix.value else "(null)"
  }

  /** What stands between the prefix and the row. */
  function Label(kind: PrefixType, address: int, i: int): string {
    match kind
    case NoPrefix => ""
    case Address => NumberText('p', FRESH, address, 10) + ": "
    case Offset => NumberText('x', OFFSET_SPEC, i, 10) + ": "
  }

  function Line(kind: PrefixType, prefix: Option<string>, address: int, i: int, row: string): string {
    PrefixText(prefix) + (Label(kind, address, i) + (row + "\n"))
  }

  /** The piece of the format that makes the label. */
  function LabelFormat(kind: PrefixType): string {
    match kind
    case NoPrefix => ""
    case Address => "%p: "
    case Offset => "%.8x: "
  }

  function LabelArgs(kind: PrefixType, address: int, i: int): seq<Arg> {
    match kind
    case NoPrefix => []
    case Address => [Int(address)]
    case Offset => [Int(i)]
  }

  function LineFormat(kind: PrefixType): string {
    match kind
    case NoPrefix => PLAIN_FORMAT
    case Address => ADDRESS_FORMAT
    case Offset => OFFSET_FORMAT
  }

  /** A format that starts with %s prints the argument and goes on with the rest. */
  lemma StringPiece(arg: Arg, fmt: string, args: seq<Arg>)
    requires !arg.Int?
    ensures Format("%s" + fmt, 0, [arg] + args, 10) == Then(NextStr([arg]), Format(fmt, 0, args, 10))
  {
    var all, s := [arg] + args, NextStr([arg]);
    assert Rest(all) == args && NextStr(all) == s;
    assert ReadDirective("%s", 1, FRESH, all) == Directive(FRESH, 's', 2, all);
    assert Repeat(' ', -|s|) == "" && "" + s == s && s + "" == s;
    assert Format("%s", 2, args, 10) == Some("") && Left("%s", 2, args) == Some(args);
    assert Format("%s", 0, all, 10) == Some(s) && Left("%s", 0, all) == Some(args);
    FormatConcat("%s", fmt, 0, all, 10);
  }

  /** The same for a format that starts with a label. */
  lemma LabelPiece(kind: PrefixType, address: int, i: int, fmt: string, args: seq<Arg>)
    ensures Format(LabelFormat(kind) + fmt, 0, LabelArgs(kind, address, i) + args, 10)
         == Then(Label(kind, address, i), Format(fmt, 0, args, 10))
  {
    var all, rest := LabelArgs(kind, address, i) + args, Format(fmt, 0, args, 10);
    match kind {
      case NoPrefix =>
        assert LabelFormat(kind) + fmt == fmt && all == args;
        assert rest.Some? ==> "" + rest.value == rest.value;
      case Address =>
        AddressLabel(address, args);
        FormatConcat("%p: ", fmt, 0, all, 10);
      case Offset =>
        OffsetLabel(i, args);
        FormatConcat("%.8x: ", fmt, 0, all, 10);
    }
  }

  lemma AddressLabel(address: int, args: seq<Arg>)
    ensures var all := [Int(address)] + args;
            && Format("%p: ", 0, all, 10) == Some(Label(Address, address, 0))
            && Left("%p: ", 0, all) == Some(args)
  {
    var all := [Int(address)] + args;
    assert Rest(all) == args && NextInt(all) == address;
    assert ReadDirective("%p: ", 1, FRESH, all) == Directive(FRESH, 'p', 2, all);
    ColonBlank("%p: ", 2, args);
  }

  lemma OffsetLabel(i: int, args: seq<Arg>)
    ensures var all := [Int(i)] + args;
            && Format("%.8x: ", 0, all, 10) == Some(Label(Offset, 0, i))
            && Left("%.8x: ", 0, all) == Some(args)
  {
    var all := [Int(i)] + args;
    var dotted := FRESH.(dot := true);
    assert Rest(all) == args && NextInt(all) == i;
    assert ReadDirective("%.8x: ", 3, OFFSET_SPEC, all) == Directive(OFFSET_SPEC, 'x', 4, all);
    assert ScanEnd("%.8x: ", 3) == 3 && ScanNumber("%.8x: ", 3, 8) == 8;
    assert ScanEnd("%.8x: ", 2) == 3 && ScanNumber("%.8x: ", 2, 0) == 8;
    assert ReadDirective("%.8x: ", 2, dotted, all) == ReadDirective("%.8x: ", 3, OFFSET_SPEC, all);
    assert ReadDirective("%.8x: ", 1, FRESH, all) == ReadDirective("%.8x: ", 2, dotted, all);
    ColonBlank("%.8x: ", 4, args);
  }

  /** An offset is shown with eight digits, and reads back. */
  lemma OffsetDigits(i: nat)
    requires i < 0x1_0000_0000
    ensures var text := NumberText('x', OFFSET_SPEC, i, 10);
            |text| == 8 && DigitsOf(text, 16) && ReadNumber(text, 16) == i
  {
    var l, digits := LayoutOf('x', OFFSET_SPEC), Digits(i, 16, false);
    assert Printed('x', OFFSET_SPEC, i) == i;
    PrintedReadsBack('x', OFFSET_SPEC, i, 10);
    FieldLength(i, false, 16, false, l);
    Pow2Of32();
    HexDump.PaddedDigits(i, 8);
    var body := Repeat('0', 8 - |digits|) + digits;
    ZerosAndDigits(i, 16, false, 8 - |digits|);
    assert "" + body == body && "" + ("" + body) == body;
    assert Body(i, false, 16, false, l) == body && Repeat(' ', 0 - |body|) == "";
    assert "" + body == NumberField(i, false, 16, false, l);
  }

  lemma ColonBlank(fmt: string, i: nat, args: seq<Arg>)
    requires |fmt| == i + 2 && fmt[i] == ':' && fmt[i + 1] == ' '
    ensures Format(fmt, i, args, 10) == Some(": ") && Left(fmt, i, args) == Some(args)
  {
    PlainText(fmt, i, args, 10);
    assert fmt[i..] == ": ";
    assert Left(fmt, i + 1, args) == Left(fmt, i + 2, args) == Some(args);
  }

  lemma RowPiece(row: string)
    ensures Format("%s" + "\n", 0, [Str(row)] + [], 10) == Some(row + "\n")
  {
    PlainText("\n", 0, [], 10);
    assert "\n"[0..] == "\n";
    StringPiece(Str(row), "\n", []);
  }

  lemma LabelledRow(kind: PrefixType, address: int, i: int, row: string)
    ensures Format(LabelFormat(kind) + ("%s" + "\n"), 0, LabelArgs(kind, address, i) + ([Str(row)] + []), 10)
         == Some(Label(kind, address, i) + (row + "\n"))
  {
    RowPiece(row);
    LabelPiece(kind, address, i, "%s" + "\n", [Str(row)] + []);
  }

  /** Two string directives in front, the first with an empty string. */
  lemma TwoStrings(arg: Arg, fmt: string, args: seq<Arg>, text: string)
    requires !arg.Int? && Format(fmt, 0, args, 10) == Some(text)
    ensures Format("%s" + ("%s" + fmt), 0, [Str("")] + ([arg] + args), 10) == Some(NextStr([arg]) + text)
  {
    StringPiece(arg, fmt, args);
    StringPiece(Str(""), "%s" + fmt, [arg] + args);
    var line := NextStr([arg]) + text;
    assert "" + line == line;
  }

  lemma FormatPieces(kind: PrefixType)
    ensures LineFormat(kind) == "%s" + ("%s" + (LabelFormat(kind) + ("%s" + "\n")))
  {
    match kind {
      case NoPrefix => assert PLAIN_FORMAT == "%s" + ("%s" + ("" + ("%s" + "\n")));
      case Address => assert ADDRESS_FORMAT == "%s" + ("%s" + ("%p: " + ("%s" + "\n")));
      case Offset => assert OFFSET_FORMAT == "%s" + ("%s" + ("%.8x: " + ("%s" + "\n")));
    }
  }

  /** What printk makes of a line. */
  lemma LineIsFormat(kind: PrefixType, prefix: Option<string>, address: int, i: int, row: string)
    ensures Format(LineFormat(kind), 0, LineArgs(kind, prefix, address, i, row), 10)
         == Some(Line(kind, prefix, address, i, row))
  {
    var fmt, args := LabelFormat(kind) + ("%s" + "\n"), LabelArgs(kind, address, i) + ([Str(row)] + []);
    LabelledRow(kind, address, i, row);
    TwoStrings(PrefixArg(prefix), fmt, args, Label(kind, address, i) + (row + "\n"));
    FormatPieces(kind);
    assert LineArgs(kind, prefix, address, i, row) == [Str("")] + ([PrefixArg(prefix)] + args);
  }

  function LineArgs(kind: PrefixType, prefix: Option<string>, address: int, i: int, row: string): seq<Arg> {
    [Str(""), PrefixArg(prefix)] + LabelArgs(kind, address, i) + [Str(row)]
  }

  /** The lines of a dump, from the labels and the rows. */
  function Assemble(head: string, labels: seq<string>, rows: seq<string>): (lines: seq<string>)
    requires |labels| == |rows|
    ensures |lines| == |rows|
  {
    if rows == [] then []
    else
      var k := |rows| - 1;
      Assemble(head, labels[..k], rows[..k]) + [head + (labels[k] + (rows[k] + "\n"))]
  }

  lemma AssembleOne(head: string, labels: seq<string>, rows: seq<string>, mark: string, row: string)
    requires |labels| == |rows|
    ensures Assemble(head, labels + [mark], rows + [row])
         == Assemble(head, labels, rows) + [head + (mark + (row + "\n"))]
  {
    assert (labels + [mark])[..|rows|] == labels && (rows + [row])[..|rows|] == rows;
  }

  /** Prints a line; `mark` is its label. */
  method PrintLine(kind: PrefixType, prefix: Option<string>, address: int, i: int, row: string, ghost mark: string)
    returns (line: string)
    requires mark == Label(kind, address, i)
    ensures line == PrefixText(prefix) + (mark + (row + "\n"))
  {
    LineIsFormat(kind, prefix, address, i, row);
    var n;
    line, n := Kvprintf(Some(LineFormat(kind)), LineArgs(kind, prefix, address, i, row), 10);
  }
}
