/** The coverage-data serializer of kernel/gcov.c.

    A profile becomes a file of 32-bit words: a header, then for each function a record
    with its identity and one record per active kind of counter.  The file is written by
    running the same conversion twice, first without a buffer to measure it. */
module Gcov {
  import opened Bits
  import opened Wrappers

  const WORD := 0x1_0000_0000
  const DATA_MAGIC := 0x67636461
  const TAG_FUNCTION := 0x01000000
  const TAG_FUNCTION_LENGTH := 3
  const TAG_COUNTER_BASE := 0x01a10000
  const TAG_STEP := 0x20000

  /** `ctrs` has one entry per active kind of counter, in the order of the kinds; values
      are 64-bit patterns. */
  datatype Function = Function(ident: nat, lineno: nat, cfg: nat, ctrs: seq<seq<nat>>)

  /** active[k] says whether kind k has a merge function. */
  datatype Info = Info(version: nat, stamp: nat, active: seq<bool>, functions: seq<Function>)

  function ActiveFrom(active: seq<bool>, ct: nat): nat
    requires ct <= |active|
    decreases |active| - ct
  {
    if ct == |active| then 0 else (if active[ct] then 1 else 0) + ActiveFrom(active, ct + 1)
  }

  /** What the compiler provides: 32-bit fields, at most nine kinds, counter arrays that
      fit in a 32-bit address space. */
  ghost predicate Valid(info: Info) {
    && info.version < WORD && info.stamp < WORD && |info.active| <= 9
    && forall i :: 0 <= i < |info.functions| ==> ValidFunction(info.active, info.functions[i])
  }

  ghost predicate ValidFunction(active: seq<bool>, f: Function) {
    && f.ident < WORD && f.lineno < WORD && f.cfg < WORD
    && |f.ctrs| == ActiveFrom(active, 0)
    && ValidCounters(f.ctrs)
  }

  ghost predicate ValidCounters(ctrs: seq<seq<nat>>) {
    forall i :: 0 <= i < |ctrs| ==> ValidValues(ctrs[i])
  }

  ghost predicate ValidValues(values: seq<nat>) {
    2 * |values| < WORD && forall j :: 0 <= j < |values| ==> values[j] < WORD * WORD
  }

  // ----- The file as words -----

  function Tag(ct: nat): nat {
    TAG_COUNTER_BASE + ct * TAG_STEP
  }

  function Split(v: nat): seq<nat> {
    [v % WORD, v / WORD]
  }

  /** 64-bit numbers as two words, the low part first. */
  function Pairs(values: seq<nat>): (ws: seq<nat>)
    ensures |ws| == 2 * |values|
  {
    if values == [] then [] else Split(values[0]) + Pairs(values[1..])
  }

  function CounterWords(ct: nat, values: seq<nat>): seq<nat> {
    [Tag(ct), 2 * |values|] + Pairs(values)
  }

  /** The counter records of the kinds from ct on; ctrs are those still to write. */
  function CountersWords(active: seq<bool>, ct: nat, ctrs: seq<seq<nat>>): seq<nat>
    requires ct <= |active| && |ctrs| == ActiveFrom(active, ct)
    decreases |active| - ct
  {
    if ct == |active| then []
    else if active[ct] then CounterWords(ct, ctrs[0]) + CountersWords(active, ct + 1, ctrs[1..])
    else CountersWords(active, ct + 1, ctrs)
  }

  function HeaderWords(f: Function): seq<nat> {
    [TAG_FUNCTION, TAG_FUNCTION_LENGTH, f.ident, f.lineno, f.cfg]
  }

  ghost predicate Complete(active: seq<bool>, fs: seq<Function>) {
    forall i :: 0 <= i < |fs| ==> |fs[i].ctrs| == ActiveFrom(active, 0)
  }

  ghost function FunctionsWords(active: seq<bool>, fs: seq<Function>): seq<nat>
    requires Complete(active, fs)
  {
    if fs == [] then []
    else HeaderWords(fs[0]) + CountersWords(active, 0, fs[0].ctrs) + FunctionsWords(active, fs[1..])
  }

  ghost function Words(info: Info): seq<nat>
    requires Complete(info.active, info.functions)
  {
    [DATA_MAGIC, info.version, info.stamp] + FunctionsWords(info.active, info.functions)
  }

  // ----- The file as bytes -----

  function WordBytes(v: nat): (bs: seq<nat>)
    ensures |bs| == 4
  {
    [v % 256, v / 256 % 256, v / 65536 % 256, v / 16777216 % 256]
  }

  function Bytes(ws: seq<nat>): (bs: seq<nat>)
    ensures |bs| == 4 * |ws|
  {
    if ws == [] then [] else Bytes(ws[..|ws| - 1]) + WordBytes(ws[|ws| - 1])
  }

  // ----- A reader of such files -----

  function BytesToWords(bs: seq<nat>): Option<seq<nat>> {
    if bs == [] then Some([])
    else if |bs| < 4 then None
    else
      match BytesToWords(bs[..|bs| - 4])
      case None => None
      case Some(ws) => Some(ws + [LittleEndian(bs[|bs| - 4..])])
  }

  datatype Record = Record(tag: nat, payload: seq<nat>)

  /** Splits words into records by tag and length. */
  function Records(ws: seq<nat>): Option<seq<Record>> {
    if ws == [] then Some([])
    else if |ws| < 2 || |ws| < 2 + ws[1] then None
    else
      match Records(ws[2 + ws[1]..])
      case None => None
      case Some(rs) => Some([Record(ws[0], ws[2..2 + ws[1]])] + rs)
  }

  function Unpair(ws: seq<nat>): seq<nat> {
    if |ws| < 2 then [] else [ws[0] + WORD * ws[1]] + Unpair(ws[2..])
  }

  datatype Counter = Counter(ct: int, values: seq<nat>)

  datatype Read = Read(ident: nat, lineno: nat, cfg: nat, counters: seq<Counter>)

  /** `loose` are counter records before the first function record. */
  datatype Grouped = Grouped(loose: seq<Counter>, functions: seq<Read>)

  function Group(rs: seq<Record>): Option<Grouped> {
    if rs == [] then Some(Grouped([], []))
    else
      match Group(rs[1..])
      case None => None
      case Some(g) =>
        var r := rs[0];
        if r.tag == TAG_FUNCTION then
          if |r.payload| != TAG_FUNCTION_LENGTH then None
          else Some(Grouped([], [Read(r.payload[0], r.payload[1], r.payload[2], g.loose)] + g.functions))
        else
          Some(g.(loose := [Counter((r.tag - TAG_COUNTER_BASE) / TAG_STEP, Unpair(r.payload))] + g.loose))
  }

  datatype File = File(version: nat, stamp: nat, functions: seq<Read>)

  function Decode(bs: seq<nat>): Option<File> {
    match BytesToWords(bs)
    case None => None
    case Some(ws) =>
      if |ws| < 3 || ws[0] != DATA_MAGIC then None
      else
        match Records(ws[3..])
        case None => None
        case Some(rs) =>
          match Group(rs)
          case None => None
          case Some(g) => if g.loose != [] then None else Some(File(ws[1], ws[2], g.functions))
  }

  // ----- What the file should say -----

  /** Each active kind from ct on with its values. */
  function CountersView(active: seq<bool>, ct: nat, ctrs: seq<seq<nat>>): seq<Counter>
    requires ct <= |active| && |ctrs| == ActiveFrom(active, ct)
    decreases |active| - ct
  {
    if ct == |active| then []
    else if active[ct] then [Counter(ct, ctrs[0])] + CountersView(active, ct + 1, ctrs[1..])
    else CountersView(active, ct + 1, ctrs)
  }

  ghost function FunctionsView(active: seq<bool>, fs: seq<Function>): seq<Read>
    requires Complete(active, fs)
  {
    if fs == [] then []
    else
      [Read(fs[0].ident, fs[0].lineno, fs[0].cfg, CountersView(active, 0, fs[0].ctrs))]
      + FunctionsView(active, fs[1..])
  }

  ghost function View(info: Info): File
    requires Complete(info.active, info.functions)
  {
    File(info.version, info.stamp, FunctionsView(info.active, info.functions))
  }

  // ----- Round trip -----

  lemma WordRoundTrip(v: nat)
    requires v < WORD
    ensures LittleEndian(WordBytes(v)) == v
  {
    var bs := WordBytes(v);
    FourBytes(bs[0], bs[1], bs[2], bs[3]);
    assert bs == [bs[0], bs[1], bs[2], bs[3]];
    BaseDigits(v);
  }

  lemma FourBytes(a: nat, b: nat, c: nat, d: nat)
    ensures LittleEndian([a, b, c, d]) == a + 256 * (b + 256 * (c + 256 * d))
  {
    assert [a, b, c, d][1..] == [b, c, d] && [b, c, d][1..] == [c, d] && [c, d][1..] == [d] && [d][1..] == [];
    assert LittleEndian([d]) == d;
    assert LittleEndian([c, d]) == c + 256 * d;
    assert LittleEndian([b, c, d]) == b + 256 * (c + 256 * d);
  }

  lemma BaseDigits(v: nat)
    requires v < WORD
    ensures v == v % 256 + 256 * (v / 256 % 256 + 256 * (v / 65536 % 256 + 256 * (v / 16777216 % 256)))
  {
    var q := v / 256;
    assert v / 65536 == q / 256 && v / 16777216 == q / 256 / 256;
    assert q / 256 / 256 < 256;
  }

  ghost predicate AllWords(ws: seq<nat>) {
    forall i :: 0 <= i < |ws| ==> ws[i] < WORD
  }

  lemma {:induction false} BytesRoundTrip(ws: seq<nat>)
    requires AllWords(ws)
    ensures BytesToWords(Bytes(ws)) == Some(ws)
  {
    if ws == [] {
    } else {
      var init, last := ws[..|ws| - 1], ws[|ws| - 1];
      BytesRoundTrip(init);
      WordRoundTrip(last);
      LastWord(Bytes(init), WordBytes(last));
      assert init + [last] == ws;
    }
  }

  lemma LastWord(front: seq<nat>, word: seq<nat>)
    requires |word| == 4 && BytesToWords(front).Some?
    ensures BytesToWords(front + word) == Some(BytesToWords(front).value + [LittleEndian(word)])
  {
  }

  lemma {:induction false} PairsRoundTrip(values: seq<nat>)
    requires forall j :: 0 <= j < |values| ==> values[j] < WORD * WORD
    ensures Unpair(Pairs(values)) == values && AllWords(Pairs(values))
  {
    if values == [] {
    } else {
      var ws := Pairs(values);
      PairsRoundTrip(values[1..]);
      assert ws[2..] == Pairs(values[1..]);
      assert values == [values[0]] + values[1..];
      forall i | 0 <= i < |ws| ensures ws[i] < WORD {
        if i >= 2 { assert ws[i] == Pairs(values[1..])[i - 2]; }
      }
    }
  }

  /** One record in front is read back in front. */
  lemma RecordFirst(tag: nat, payload: seq<nat>, rest: seq<nat>)
    ensures Records([tag, |payload|] + payload + rest)
         == match Records(rest) case None => None case Some(rs) => Some([Record(tag, payload)] + rs)
  {
  }

  /** Reading words gives these groups. */
  ghost predicate Reads(ws: seq<nat>, loose: seq<Counter>, functions: seq<Read>) {
    exists rs :: Records(ws) == Some(rs) && Group(rs) == Some(Grouped(loose, functions))
  }

  lemma CounterReads(ct: nat, values: seq<nat>, rest: seq<nat>, loose: seq<Counter>, functions: seq<Read>)
    requires ct < 9 && ValidValues(values) && Reads(rest, loose, functions)
    ensures Reads(CounterWords(ct, values) + rest, [Counter(ct, values)] + loose, functions)
  {
    var rs :| Records(rest) == Some(rs) && Group(rs) == Some(Grouped(loose, functions));
    var payload := Pairs(values);
    PairsRoundTrip(values);
    RecordFirst(Tag(ct), payload, rest);
    assert CounterWords(ct, values) + rest == [Tag(ct), |payload|] + payload + rest;
    var rs' := [Record(Tag(ct), payload)] + rs;
    assert rs'[1..] == rs;
    assert (Tag(ct) - TAG_COUNTER_BASE) / TAG_STEP == ct;
    assert Group(rs') == Some(Grouped([Counter(ct, values)] + loose, functions));
  }

  lemma {:induction false} CountersRead(active: seq<bool>, ct: nat, ctrs: seq<seq<nat>>,
                                        rest: seq<nat>, functions: seq<Read>)
    requires ct <= |active| <= 9 && |ctrs| == ActiveFrom(active, ct) && ValidCounters(ctrs)
    requires Reads(rest, [], functions)
    ensures Reads(CountersWords(active, ct, ctrs) + rest, CountersView(active, ct, ctrs), functions)
    decreases |active| - ct
  {
    if ct == |active| {
      assert [] + rest == rest;
    } else if active[ct] {
      var tail := CountersWords(active, ct + 1, ctrs[1..]);
      CountersRead(active, ct + 1, ctrs[1..], rest, functions);
      CounterReads(ct, ctrs[0], tail + rest, CountersView(active, ct + 1, ctrs[1..]), functions);
      assert CounterWords(ct, ctrs[0]) + tail + rest == CounterWords(ct, ctrs[0]) + (tail + rest);
    } else {
      CountersRead(active, ct + 1, ctrs, rest, functions);
    }
  }

  lemma HeaderReads(f: Function, rest: seq<nat>, loose: seq<Counter>, functions: seq<Read>)
    requires Reads(rest, loose, functions)
    ensures Reads(HeaderWords(f) + rest, [], [Read(f.ident, f.lineno, f.cfg, loose)] + functions)
  {
  }

  lemma {:induction false} FunctionsRead(active: seq<bool>, fs: seq<Function>)
    requires |active| <= 9 && forall i :: 0 <= i < |fs| ==> ValidFunction(active, fs[i])
    ensures Complete(active, fs) && Reads(FunctionsWords(active, fs), [], FunctionsView(active, fs))
  {
    if fs == [] {
      var none: seq<Record> := [];
      assert Records([]) == Some(none) && Group(none) == Some(Grouped([], []));
    } else {
      var f := fs[0];
      assert ValidFunction(active, f);
      FunctionsRead(active, fs[1..]);
      var rest := FunctionsWords(active, fs[1..]);
      CountersRead(active, 0, f.ctrs, rest, FunctionsView(active, fs[1..]));
      var counters := CountersWords(active, 0, f.ctrs);
      HeaderReads(f, counters + rest, CountersView(active, 0, f.ctrs), FunctionsView(active, fs[1..]));
      assert HeaderWords(f) + counters + rest == HeaderWords(f) + (counters + rest);
    }
  }

  lemma {:induction false} CountersAreWords(active: seq<bool>, ct: nat, ctrs: seq<seq<nat>>)
    requires ct <= |active| <= 9 && |ctrs| == ActiveFrom(active, ct) && ValidCounters(ctrs)
    ensures AllWords(CountersWords(active, ct, ctrs))
    decreases |active| - ct
  {
    if ct == |active| {
    } else {
      if active[ct] {
        CountersAreWords(active, ct + 1, ctrs[1..]);
        PairsRoundTrip(ctrs[0]);
      } else {
        CountersAreWords(active, ct + 1, ctrs);
      }
    }
  }

  lemma {:induction false} FunctionsAreWords(active: seq<bool>, fs: seq<Function>)
    requires |active| <= 9 && forall i :: 0 <= i < |fs| ==> ValidFunction(active, fs[i])
    ensures Complete(active, fs) && AllWords(FunctionsWords(active, fs))
  {
    if fs == [] {
    } else {
      assert ValidFunction(active, fs[0]);
      FunctionsAreWords(active, fs[1..]);
      CountersAreWords(active, 0, fs[0].ctrs);
    }
  }

  // ----- What a file has to say -----

  /** The c-th counter of a function is that of the c-th active kind, with its values. */
  ghost predicate CountersFaithful(active: seq<bool>, from: nat, ctrs: seq<seq<nat>>, counters: seq<Counter>) {
    && |counters| == |ctrs|
    && (forall c :: 0 <= c < |ctrs| ==> CounterFaithful(active, from, ctrs[c], counters[c]))
    && Ascending(counters) && Covered(active, from, counters)
  }

  ghost predicate CounterFaithful(active: seq<bool>, from: nat, values: seq<nat>, counter: Counter) {
    counter.values == values && from <= counter.ct < |active| && active[counter.ct]
  }

  ghost predicate Ascending(counters: seq<Counter>) {
    forall c, d :: 0 <= c < d < |counters| ==> counters[c].ct < counters[d].ct
  }

  ghost predicate Covered(active: seq<bool>, from: nat, counters: seq<Counter>) {
    forall k :: from <= k < |active| && active[k] ==> exists c :: 0 <= c < |counters| && counters[c].ct == k
  }

  ghost predicate FunctionFaithful(active: seq<bool>, f: Function, r: Read) {
    r.ident == f.ident && r.lineno == f.lineno && r.cfg == f.cfg && CountersFaithful(active, 0, f.ctrs, r.counters)
  }

  /** The file has the version and stamp, and every function of the profile, in order, with
      its identity and all its counters. */
  ghost predicate Faithful(info: Info, file: File) {
    && file.version == info.version && file.stamp == info.stamp
    && |file.functions| == |info.functions|
    && forall f :: 0 <= f < |info.functions| ==> FunctionFaithful(info.active, info.functions[f], file.functions[f])
  }

  lemma {:induction false} CountersViewFaithful(active: seq<bool>, ct: nat, ctrs: seq<seq<nat>>)
    requires ct <= |active| && |ctrs| == ActiveFrom(active, ct)
    ensures CountersFaithful(active, ct, ctrs, CountersView(active, ct, ctrs))
    decreases |active| - ct
  {
    if ct == |active| {
    } else if active[ct] {
      CountersViewFaithful(active, ct + 1, ctrs[1..]);
      CountersPrepend(active, ct, ctrs, CountersView(active, ct + 1, ctrs[1..]));
    } else {
      CountersViewFaithful(active, ct + 1, ctrs);
    }
  }

  lemma CountersPrepend(active: seq<bool>, ct: nat, ctrs: seq<seq<nat>>, rest: seq<Counter>)
    requires ct < |active| && active[ct] && ctrs != [] && CountersFaithful(active, ct + 1, ctrs[1..], rest)
    ensures CountersFaithful(active, ct, ctrs, [Counter(ct, ctrs[0])] + rest)
  {
    var all := [Counter(ct, ctrs[0])] + rest;
    forall c | 0 <= c < |ctrs| ensures CounterFaithful(active, ct, ctrs[c], all[c]) {
      if c > 0 { assert CounterFaithful(active, ct + 1, ctrs[1..][c - 1], rest[c - 1]); }
    }
    forall c | 0 <= c < |rest| ensures ct < rest[c].ct {
      assert CounterFaithful(active, ct + 1, ctrs[1..][c], rest[c]);
    }
    AscendingPrepend(Counter(ct, ctrs[0]), rest);
    CoveredPrepend(active, ct, Counter(ct, ctrs[0]), rest);
  }

  lemma AscendingPrepend(first: Counter, rest: seq<Counter>)
    requires Ascending(rest) && forall c :: 0 <= c < |rest| ==> first.ct < rest[c].ct
    ensures Ascending([first] + rest)
  {
  }

  lemma CoveredPrepend(active: seq<bool>, ct: nat, first: Counter, rest: seq<Counter>)
    requires Covered(active, ct + 1, rest) && first.ct == ct
    ensures Covered(active, ct, [first] + rest)
  {
    var all := [first] + rest;
    forall k | ct <= k < |active| && active[k] ensures exists c :: 0 <= c < |all| && all[c].ct == k {
      if k == ct {
        assert all[0].ct == k;
      } else {
        var c :| 0 <= c < |rest| && rest[c].ct == k;
        assert all[c + 1].ct == k;
      }
    }
  }

  lemma {:induction false} FunctionsViewFaithful(active: seq<bool>, fs: seq<Function>)
    requires Complete(active, fs)
    ensures |FunctionsView(active, fs)| == |fs|
    ensures forall f :: 0 <= f < |fs| ==> FunctionFaithful(active, fs[f], FunctionsView(active, fs)[f])
  {
    if fs == [] {
    } else {
      FunctionsViewFaithful(active, fs[1..]);
      CountersViewFaithful(active, 0, fs[0].ctrs);
      var v, rest := FunctionsView(active, fs), FunctionsView(active, fs[1..]);
      forall f | 0 <= f < |fs| ensures FunctionFaithful(active, fs[f], v[f]) {
        if f > 0 { assert fs[f] == fs[1..][f - 1] && v[f] == rest[f - 1]; }
      }
    }
  }

  lemma ViewFaithful(info: Info)
    requires Complete(info.active, info.functions)
    ensures Faithful(info, View(info))
  {
    FunctionsViewFaithful(info.active, info.functions);
  }

  /** The words of the format: a header of three, a function record of five, and two in
      front of a counter's values. */
  lemma FormatWords(info: Info)
    requires Complete(info.active, info.functions)
    ensures Words(info)[..3] == [0x67636461, info.version, info.stamp]
    ensures info.functions != [] ==>
              var f := info.functions[0];
              |Words(info)| >= 8 && Words(info)[3..8] == [0x01000000, 3, f.ident, f.lineno, f.cfg]
    ensures forall ct: nat, values: seq<nat> ::
              CounterWords(ct, values)[..2] == [0x01a10000 + ct * 0x20000, 2 * |values|]
    ensures forall v: nat :: Split(v) == [v % 0x1_0000_0000, v / 0x1_0000_0000]
  {
    if info.functions != [] {
      var f := info.functions[0];
      var rest := CountersWords(info.active, 0, f.ctrs) + FunctionsWords(info.active, info.functions[1..]);
      assert Words(info) == [0x67636461, info.version, info.stamp] + (HeaderWords(f) + rest);
    }
  }

  /** A reader that knows only tags and lengths recovers the header, every function record
      and every active counter's values. */
  lemma RoundTrip(info: Info)
    requires Valid(info)
    ensures Complete(info.active, info.functions)
    ensures Decode(Bytes(Words(info))) == Some(View(info)) && Faithful(info, View(info))
  {
    ViewFaithful(info);
    FunctionsRead(info.active, info.functions);
    FunctionsAreWords(info.active, info.functions);
    var body := FunctionsWords(info.active, info.functions);
    var ws := Words(info);
    BytesRoundTrip(ws);
    assert ws[3..] == body;
  }

  // ----- The conversion, into a buffer or only measured -----

  /** The buffer, if there is one, starts with the bytes of ws, and pos is their number. */
  ghost predicate Filled(buf: array?<nat>, pos: nat, ws: seq<nat>)
    reads buf
  {
    pos == 4 * |ws| && (buf != null ==> pos <= buf.Length && buf[..pos] == Bytes(ws))
  }

  ghost predicate Room(buf: array?<nat>, n: nat) {
    buf != null ==> n <= buf.Length
  }

  lemma BytesAppend(ws: seq<nat>, v: nat)
    ensures Bytes(ws + [v]) == Bytes(ws) + WordBytes(v)
  {
  }

  method StoreU32(buf: array?<nat>, off: nat, v: nat, ghost ws: seq<nat>) returns (n: nat)
    requires Filled(buf, off, ws) && Room(buf, off + 4)
    modifies buf
    ensures n == 4 && Filled(buf, off + n, ws + [v])
    ensures buf != null ==> forall i :: off + n <= i < buf.Length ==> buf[i] == old(buf[i])
  {
    if buf != null {
      BytesAppend(ws, v);
      buf[off] := v % 256;
      buf[off + 1] := v / 256 % 256;
      buf[off + 2] := v / 65536 % 256;
      buf[off + 3] := v / 16777216 % 256;
      assert buf[..off] == Bytes(ws);
      assert buf[..off + 4] == buf[..off] + WordBytes(v);
    }
    n := 4;
  }

  method StoreU64(buf: array?<nat>, off: nat, v: nat, ghost ws: seq<nat>) returns (n: nat)
    requires Filled(buf, off, ws) && Room(buf, off + 8)
    modifies buf
    ensures n == 8 && Filled(buf, off + n, ws + Split(v))
    ensures buf != null ==> forall i :: off + n <= i < buf.Length ==> buf[i] == old(buf[i])
  {
    var lo := StoreU32(buf, off, v % WORD, ws);
    var hi := StoreU32(buf, off + 4, v / WORD, ws + [v % WORD]);
    assert ws + [v % WORD] + [v / WORD] == ws + Split(v);
    n := 8;
  }

  method StoreValues(buf: array?<nat>, start: nat, values: seq<nat>, ghost ws: seq<nat>) returns (pos: nat)
    requires Filled(buf, start, ws) && Room(buf, start + 8 * |values|)
    modifies buf
    ensures Filled(buf, pos, ws + Pairs(values))
    ensures buf != null ==> forall i :: pos <= i < buf.Length ==> buf[i] == old(buf[i])
  {
    pos := start;
    ghost var cur := ws;
    for i := 0 to |values|
      invariant Filled(buf, pos, cur) && cur + Pairs(values[i..]) == ws + Pairs(values)
      invariant pos == start + 8 * i
      invariant buf != null ==> forall j :: pos <= j < buf.Length ==> buf[j] == old(buf[j])
    {
      var v := values[i];
      assert values[i..][1..] == values[i + 1..];
      NextRecord(cur, Split(v), Pairs(values[i + 1..]), ws + Pairs(values));
      var n := StoreU64(buf, pos, v, cur);
      pos := pos + n;
      cur := cur + Split(v);
    }
    assert values[|values|..] == [] && cur + [] == cur;
  }

  method StoreCounter(buf: array?<nat>, start: nat, ct: nat, values: seq<nat>, ghost ws: seq<nat>) returns (pos: nat)
    requires Filled(buf, start, ws) && Room(buf, start + 4 * |CounterWords(ct, values)|)
    modifies buf
    ensures Filled(buf, pos, ws + CounterWords(ct, values))
    ensures buf != null ==> forall i :: pos <= i < buf.Length ==> buf[i] == old(buf[i])
  {
    pos := start;
    var n := StoreU32(buf, pos, Tag(ct), ws);
    pos := pos + n;
    n := StoreU32(buf, pos, 2 * |values|, ws + [Tag(ct)]);
    pos := pos + n;
    ghost var head := ws + [Tag(ct)] + [2 * |values|];
    pos := StoreValues(buf, pos, values, head);
    assert head + Pairs(values) == ws + CounterWords(ct, values);
  }

  method StoreCounters(buf: array?<nat>, start: nat, active: seq<bool>, ctrs: seq<seq<nat>>, ghost ws: seq<nat>)
    returns (pos: nat)
    requires |ctrs| == ActiveFrom(active, 0)
    requires Filled(buf, start, ws) && Room(buf, start + 4 * |CountersWords(active, 0, ctrs)|)
    modifies buf
    ensures Filled(buf, pos, ws + CountersWords(active, 0, ctrs))
    ensures buf != null ==> forall i :: pos <= i < buf.Length ==> buf[i] == old(buf[i])
  {
    pos := start;
    var ci := 0;
    ghost var cur := ws;
    ghost var total := ws + CountersWords(active, 0, ctrs);
    for ct := 0 to |active|
      invariant 0 <= ci <= |ctrs| && |ctrs[ci..]| == ActiveFrom(active, ct)
      invariant Filled(buf, pos, cur) && cur + CountersWords(active, ct, ctrs[ci..]) == total
      invariant buf != null ==> forall j :: pos <= j < buf.Length ==> buf[j] == old(buf[j])
    {
      if active[ct] {
        ghost var rec := CounterWords(ct, ctrs[ci]);
        assert ctrs[ci..][1..] == ctrs[ci + 1..];
        NextRecord(cur, rec, CountersWords(active, ct + 1, ctrs[ci + 1..]), total);
        pos := StoreCounter(buf, pos, ct, ctrs[ci], cur);
        cur := cur + rec;
        ci := ci + 1;
      }
    }
    assert cur + [] == cur;
  }

  /** Moving one record from the part still to write to the part written. */
  lemma NextRecord(cur: seq<nat>, rec: seq<nat>, rest: seq<nat>, total: seq<nat>)
    requires cur + (rec + rest) == total
    ensures (cur + rec) + rest == total && |cur| + |rec| <= |total|
  {
  }

  method StoreHeader(buf: array?<nat>, start: nat, f: Function, ghost ws: seq<nat>) returns (pos: nat)
    requires Filled(buf, start, ws) && Room(buf, start + 20)
    modifies buf
    ensures Filled(buf, pos, ws + HeaderWords(f))
    ensures buf != null ==> forall i :: pos <= i < buf.Length ==> buf[i] == old(buf[i])
  {
    var n := StoreU32(buf, start, TAG_FUNCTION, ws);
    ghost var w1 := ws + [TAG_FUNCTION];
    pos := start + n;
    n := StoreU32(buf, pos, TAG_FUNCTION_LENGTH, w1);
    ghost var w2 := w1 + [TAG_FUNCTION_LENGTH];
    pos := StoreIdentity(buf, pos + n, f, w2);
    assert w2 + [f.ident, f.lineno, f.cfg] == ws + HeaderWords(f);
  }

  method StoreIdentity(buf: array?<nat>, start: nat, f: Function, ghost ws: seq<nat>) returns (pos: nat)
    requires Filled(buf, start, ws) && Room(buf, start + 12)
    modifies buf
    ensures Filled(buf, pos, ws + [f.ident, f.lineno, f.cfg])
    ensures buf != null ==> forall i :: pos <= i < buf.Length ==> buf[i] == old(buf[i])
  {
    var n := StoreU32(buf, start, f.ident, ws);
    ghost var w1 := ws + [f.ident];
    pos := start + n;
    n := StoreU32(buf, pos, f.lineno, w1);
    ghost var w2 := w1 + [f.lineno];
    pos := pos + n;
    n := StoreU32(buf, pos, f.cfg, w2);
    pos := pos + n;
    assert w2 + [f.cfg] == ws + [f.ident, f.lineno, f.cfg];
  }

  /** convert_to_gcda: with no buffer it only measures; with one it stores exactly the
      measured bytes, contiguously, and nothing after them. */
  method ConvertToGcda(buf: array?<nat>, info: Info) returns (pos: nat)
    requires Complete(info.active, info.functions) && Room(buf, 4 * |Words(info)|)
    modifies buf
    ensures pos == 4 * |Words(info)|
    ensures buf != null ==> buf[..pos] == Bytes(Words(info))
    ensures buf != null ==> forall i :: pos <= i < buf.Length ==> buf[i] == old(buf[i])
  {
    var n := StoreU32(buf, 0, DATA_MAGIC, []);
    pos := n;
    n := StoreU32(buf, pos, info.version, [] + [DATA_MAGIC]);
    pos := pos + n;
    n := StoreU32(buf, pos, info.stamp, [] + [DATA_MAGIC] + [info.version]);
    pos := pos + n;
    ghost var cur := [] + [DATA_MAGIC] + [info.version] + [info.stamp];
    assert cur == [DATA_MAGIC, info.version, info.stamp];
    pos := StoreFunctions(buf, pos, info.active, info.functions, cur);
  }

  method StoreFunction(buf: array?<nat>, start: nat, active: seq<bool>, f: Function, ghost ws: seq<nat>)
    returns (pos: nat)
    requires |f.ctrs| == ActiveFrom(active, 0)
    requires Filled(buf, start, ws) && Room(buf, start + 4 * |HeaderWords(f) + CountersWords(active, 0, f.ctrs)|)
    modifies buf
    ensures Filled(buf, pos, ws + (HeaderWords(f) + CountersWords(active, 0, f.ctrs)))
    ensures buf != null ==> forall i :: pos <= i < buf.Length ==> buf[i] == old(buf[i])
  {
    pos := StoreHeader(buf, start, f, ws);
    ghost var head, counters := HeaderWords(f), CountersWords(active, 0, f.ctrs);
    pos := StoreCounters(buf, pos, active, f.ctrs, ws + head);
    assert ws + head + counters == ws + (head + counters);
  }

  method StoreFunctions(buf: array?<nat>, start: nat, active: seq<bool>, fs: seq<Function>, ghost ws: seq<nat>)
    returns (pos: nat)
    requires Complete(active, fs)
    requires Filled(buf, start, ws) && Room(buf, start + 4 * |FunctionsWords(active, fs)|)
    modifies buf
    ensures Filled(buf, pos, ws + FunctionsWords(active, fs))
    ensures buf != null ==> forall i :: pos <= i < buf.Length ==> buf[i] == old(buf[i])
  {
    pos := start;
    ghost var cur := ws;
    ghost var total := ws + FunctionsWords(active, fs);
    for i := 0 to |fs|
      invariant Filled(buf, pos, cur) && cur + FunctionsWords(active, fs[i..]) == total
      invariant buf != null ==> forall j :: pos <= j < buf.Length ==> buf[j] == old(buf[j])
    {
      var f := fs[i];
      assert fs[i..][1..] == fs[i + 1..];
      ghost var head, counters := HeaderWords(f), CountersWords(active, 0, f.ctrs);
      ghost var rest := FunctionsWords(active, fs[i + 1..]);
      NextRecord(cur, head + counters, rest, total);
      pos := StoreFunction(buf, pos, active, f, cur);
      cur := cur + (head + counters);
    }
    assert fs[|fs|..] == [] && cur + [] == cur;
  }

  /** The two passes of gcov_dump: the buffer is as large as the first one says, and the
      second one fills it with a file that reads back as the profile. */
  method DumpFile(info: Info) returns (buf: array<nat>)
    requires Valid(info)
    ensures Complete(info.active, info.functions)
    ensures fresh(buf) && buf[..] == Bytes(Words(info))
    ensures Decode(buf[..]).Some? && Faithful(info, Decode(buf[..]).value)
  {
    RoundTrip(info);
    var bytesNeeded := ConvertToGcda(null, info);
    buf := new nat[bytesNeeded];
    var pos := ConvertToGcda(buf, info);
    assert buf[..] == buf[..pos];
  }

  // ----- Resetting the counters -----

  function Zeros(n: nat): seq<nat> {
    seq(n, _ => 0)
  }

  function ResetFunction(f: Function): Function {
    f.(ctrs := seq(|f.ctrs|, i requires 0 <= i < |f.ctrs| => Zeros(|f.ctrs[i]|)))
  }

  function ResetInfo(info: Info): Info {
    info.(functions := seq(|info.functions|, i requires 0 <= i < |info.functions| => ResetFunction(info.functions[i])))
  }

  /** Every counter value is zero, and everything else as before. */
  ghost predicate AllZero(was: Info, now: Info) {
    && now == was.(functions := now.functions) && |now.functions| == |was.functions|
    && forall f :: 0 <= f < |was.functions| ==> ZeroedFunction(was.functions[f], now.functions[f])
  }

  ghost predicate ZeroedFunction(was: Function, now: Function) {
    && now == was.(ctrs := now.ctrs) && |now.ctrs| == |was.ctrs|
    && forall c :: 0 <= c < |was.ctrs| ==> ZeroedValues(was.ctrs[c], now.ctrs[c])
  }

  ghost predicate ZeroedValues(was: seq<nat>, now: seq<nat>) {
    |now| == |was| && forall v :: 0 <= v < |now| ==> now[v] == 0
  }

  class Profile {
    var info: Info

    constructor (info: Info)
      ensures this.info == info
    {
      this.info := info;
    }

    /** __gcov_info_reset: every value of every active counter becomes zero and nothing
        else changes. */
    method Reset()
      requires Complete(info.active, info.functions)
      modifies this
      ensures info == ResetInfo(old(info)) && AllZero(old(info), info)
    {
      for i := 0 to |info.functions|
        invariant info == old(info).(functions := info.functions)
        invariant |info.functions| == |old(info).functions|
        invariant forall k :: 0 <= k < i ==> info.functions[k] == ResetFunction(old(info).functions[k])
        invariant forall k :: i <= k < |info.functions| ==> info.functions[k] == old(info).functions[k]
      {
        var f := ZeroCounters(info.active, info.functions[i]);
        info := info.(functions := info.functions[i := f]);
      }
    }
  }

  method ZeroCounters(active: seq<bool>, f: Function) returns (r: Function)
    requires |f.ctrs| == ActiveFrom(active, 0)
    ensures r == ResetFunction(f) && ZeroedFunction(f, r)
  {
    r := f;
    var ci := 0;
    for ct := 0 to |active|
      invariant r == f.(ctrs := r.ctrs) && |r.ctrs| == |f.ctrs|
      invariant 0 <= ci <= |f.ctrs| && |f.ctrs| - ci == ActiveFrom(active, ct)
      invariant forall k :: 0 <= k < ci ==> r.ctrs[k] == Zeros(|f.ctrs[k]|)
      invariant forall k :: ci <= k < |f.ctrs| ==> r.ctrs[k] == f.ctrs[k]
    {
      if active[ct] {
        var values := r.ctrs[ci];
        for cv := 0 to |values|
          invariant |values| == |f.ctrs[ci]|
          invariant forall j :: 0 <= j < cv ==> values[j] == 0
        {
          values := values[cv := 0];
        }
        r := r.(ctrs := r.ctrs[ci := values]);
        ci := ci + 1;
      }
    }
  }

  lemma {:induction false} CountersLength(active: seq<bool>, ct: nat, a: seq<seq<nat>>, b: seq<seq<nat>>)
    requires ct <= |active| && |a| == |b| == ActiveFrom(active, ct)
    requires forall i :: 0 <= i < |a| ==> |a[i]| == |b[i]|
    ensures |CountersWords(active, ct, a)| == |CountersWords(active, ct, b)|
    decreases |active| - ct
  {
    if ct == |active| {
    } else {
      if active[ct] {
        CountersLength(active, ct + 1, a[1..], b[1..]);
      } else {
        CountersLength(active, ct + 1, a, b);
      }
    }
  }

  lemma {:induction false} FunctionsLength(active: seq<bool>, fs: seq<Function>, gs: seq<Function>)
    requires |fs| == |gs| && Complete(active, fs)
    requires forall i :: 0 <= i < |fs| ==> gs[i] == ResetFunction(fs[i])
    ensures Complete(active, gs) && |FunctionsWords(active, fs)| == |FunctionsWords(active, gs)|
  {
    if fs == [] {
    } else {
      FunctionsLength(active, fs[1..], gs[1..]);
      CountersLength(active, 0, fs[0].ctrs, gs[0].ctrs);
    }
  }

  /** Resetting leaves the size of the file as it was, and the file then says that every
      active counter is zero. */
  lemma ResetKeepsSize(info: Info)
    requires Valid(info)
    ensures Complete(info.active, info.functions)
    ensures Valid(ResetInfo(info)) && Complete(info.active, ResetInfo(info).functions)
    ensures |Words(ResetInfo(info))| == |Words(info)|
    ensures AllZero(info, ResetInfo(info))
    ensures var file := Decode(Bytes(Words(ResetInfo(info))));
            && file.Some? && Faithful(ResetInfo(info), file.value)
            && forall f, c :: 0 <= f < |file.value.functions| && 0 <= c < |file.value.functions[f].counters| ==>
                 ZeroedValues(info.functions[f].ctrs[c], file.value.functions[f].counters[c].values)
  {
    FunctionsRead(info.active, info.functions);
    var r := ResetInfo(info);
    forall i | 0 <= i < |r.functions| ensures ValidFunction(r.active, r.functions[i]) {
      assert ValidFunction(info.active, info.functions[i]);
    }
    FunctionsLength(info.active, info.functions, r.functions);
    RoundTrip(r);
  }
}
