/**
 * The menu screen builder and the data stream analyzer: a printer and a parser of 3270 orders.
 */
module DataStreamModel {
  import opened Common

  const SBA: byte := 0x11
  const SF: byte := 0x1D
  const IC: byte := 0x13
  const SFE: byte := 0x29
  const RA: byte := 0x3C
  const WRITE: byte := 0x01
  const ERASE_WRITE: byte := 0x05
  const ERASE_WRITE_ALTERNATE: byte := 0x7E
  const MENU_ATTRIBUTE: byte := 0xF0

  /** The width by which the analyzer turns an address into a row and a column. */
  const ANALYZER_WIDTH := 80

  /** One line of the analyzer's report. A data line tells the length of a run and its first bytes. */
  datatype Detail =
    | Command(code: byte)
    | Wcc(value: byte)
    | OrderSba
    | Address(address: nat, row: nat, col: nat)
    | OrderRa
    | RepeatTo(target: nat, targetRow: nat, targetCol: nat, fill: byte)
    | OrderSf
    | Attribute(attribute: byte)
    | OrderIc
    | OrderSfe
    | Pairs(count: nat)
    | Data(length: nat, preview: seq<byte>)

  predicate IsCommand(b: byte) {
    b == WRITE || b == ERASE_WRITE || b == ERASE_WRITE_ALTERNATE
  }

  /** The bytes that end a run of data. */
  predicate IsStop(b: byte) {
    IsCommand(b) || b == SBA || b == SF || b == IC || b == SFE || b == RA
  }

  /** Twelve bits from two address bytes. */
  function DecodeAddress(high: byte, low: byte): nat {
    (high % 64) * 64 + low % 64
  }

  function AddressDetail(address: nat): Detail {
    Address(address, address / ANALYZER_WIDTH, address % ANALYZER_WIDTH)
  }

  function DataDetail(run: seq<byte>): Detail {
    Data(|run|, run[..Min(8, |run|)])
  }

  function RunLength(data: seq<byte>): (n: nat)
    ensures n <= |data|
    ensures forall k :: 0 <= k < n ==> !IsStop(data[k])
    ensures n < |data| ==> IsStop(data[n])
  {
    if data == [] || IsStop(data[0]) then 0 else 1 + RunLength(data[1..])
  }

  /** What is left after `n` bytes, nothing when there are fewer. */
  function Skip(data: seq<byte>, n: nat): (rest: seq<byte>)
    ensures n > 0 && data != [] ==> |rest| < |data|
  {
    data[Min(n, |data|)..]
  }

  /** The report on the first command, order or data run, and how many bytes it covers. */
  function First(data: seq<byte>): (r: (seq<Detail>, nat))
    requires data != []
    ensures r.1 > 0
  {
    var b := data[0];
    if IsCommand(b) then
      if |data| > 1 then ([Command(b), Wcc(data[1])], 2) else ([Command(b)], 1)
    else if b == SBA then
      if |data| > 2 then ([OrderSba, AddressDetail(DecodeAddress(data[1], data[2]))], 3) else ([OrderSba], 1)
    else if b == RA then
      if |data| > 3 then
        var target := DecodeAddress(data[1], data[2]);
        ([OrderRa, RepeatTo(target, target / ANALYZER_WIDTH, target % ANALYZER_WIDTH, data[3])], 4)
      else ([OrderRa], 1)
    else if b == SF then
      if |data| > 1 then ([OrderSf, Attribute(data[1])], 2) else ([OrderSf], 1)
    else if b == IC then ([OrderIc], 1)
    else if b == SFE then
      if |data| > 1 then ([OrderSfe, Pairs(data[1])], 2 + data[1] as int * 2) else ([OrderSfe], 1)
    else ([DataDetail(data[..RunLength(data)])], RunLength(data))
  }

  /** The analyzer's report on a data stream. */
  function Details(data: seq<byte>): seq<Detail>
    decreases |data|
  {
    if data == [] then []
    else First(data).0 + Details(Skip(data, First(data).1))
  }

  // ------------------------------------------------------------------------------------------
  // Building
  // ------------------------------------------------------------------------------------------

  /** The order that sets the buffer address, with six bits in each address byte. */
  function BuildSba(row: nat, col: nat, width: nat): seq<byte> {
    SetAddress(row * width + col)
  }

  function SetAddress(address: nat): seq<byte> {
    [SBA, 64 + (address / 64) % 64, 64 + address % 64]
  }

  /** The address bytes decode to the address modulo 4096, so to the address exactly below that. */
  lemma AddressRoundTrip(address: nat)
    ensures var order := SetAddress(address);
      && DecodeAddress(order[1], order[2]) == address % 4096
      && (DecodeAddress(order[1], order[2]) == address <==> address < 4096)
  {
    SixBitHalves(address);
    SixBits((address / 64) % 64);
    SixBits(address % 64);
  }

  lemma SixBits(b: nat)
    requires b < 64
    ensures (64 + b) % 64 == b
  {
  }

  lemma SixBitHalves(a: nat)
    ensures ((a / 64) % 64) * 64 + a % 64 == a % 4096
  {
    var q, r := a / 64, a % 64;
    var q', r' := q / 64, q % 64;
    assert a == (q' * 64 + r') * 64 + r == q' * 4096 + (r' * 64 + r);
  }

  /**
   * The analyzer turns addresses into positions by width 80, whatever the screen: the start of a row
   * is reported as that row exactly for a screen of that width, and for the first row.
   */
  lemma RowReported(row: nat, width: nat)
    ensures AddressDetail(row * width) == Address(row * width, row, 0) <==> width == ANALYZER_WIDTH || row == 0
  {
    var address := row * width;
    if address / ANALYZER_WIDTH == row && address % ANALYZER_WIDTH == 0 {
      assert row * width == row * ANALYZER_WIDTH;
      SameFactor(row, width, ANALYZER_WIDTH);
    }
  }

  lemma SameFactor(a: nat, x: nat, y: nat)
    ensures a * x == a * y <==> a == 0 || x == y
  {
    assert a * x - a * y == a * (x - y);
  }

  function MenuText(name: string, description: string): string {
    name + ": " + description
  }

  /** The stream of one option: its address, a field and its text. */
  function OptionBytes(text: seq<byte>, row: nat, width: nat): seq<byte> {
    BuildSba(row, 0, width) + [SF, MENU_ATTRIBUTE] + text
  }

  /** The options from row `row` on. */
  function OptionsBytes(texts: seq<seq<byte>>, row: nat, width: nat): seq<byte>
    decreases |texts|
  {
    if texts == [] then [] else OptionBytes(texts[0], row, width) + OptionsBytes(texts[1..], row + 1, width)
  }

  function MenuBytes(title: seq<byte>, texts: seq<seq<byte>>, width: nat): seq<byte> {
    [0] + BuildSba(0, 0, width) + title + OptionsBytes(texts, 2, width)
  }

  // ------------------------------------------------------------------------------------------
  // What the report on a menu should say
  // ------------------------------------------------------------------------------------------

  function TextDetails(text: seq<byte>): seq<Detail> {
    if text == [] then [] else [DataDetail(text)]
  }

  function OptionsDetails(texts: seq<seq<byte>>, row: nat, width: nat): seq<Detail>
    decreases |texts|
  {
    if texts == [] then []
    else OptionFront(row * width)
         + (TextDetails(texts[0]) + OptionsDetails(texts[1..], row + 1, width))
  }

  /** The one-byte run of the write control character, then the title, then every option. */
  function MenuDetails(title: seq<byte>, texts: seq<seq<byte>>, width: nat): seq<Detail> {
    [Data(1, [0]), OrderSba, AddressDetail(0)] + (TextDetails(title) + OptionsDetails(texts, 2, width))
  }

  predicate Clean(text: seq<byte>) {
    forall b <- text :: !IsStop(b)
  }

  predicate OptionsClean(texts: seq<seq<byte>>, row: nat, width: nat)
    decreases |texts|
  {
    texts == [] || (row * width < 4096 && Clean(texts[0]) && OptionsClean(texts[1..], row + 1, width))
  }

  // ------------------------------------------------------------------------------------------
  // Parsing what was built
  // ------------------------------------------------------------------------------------------

  lemma DetailsOfSba(address: nat, rest: seq<byte>)
    ensures Details(SetAddress(address) + rest) == [OrderSba, AddressDetail(address % 4096)] + Details(rest)
  {
    var order := SetAddress(address);
    var data := order + rest;
    AddressRoundTrip(address);
    assert data[0] == SBA && data[1] == order[1] && data[2] == order[2] && Skip(data, 3) == rest;
  }

  lemma DetailsOfSf(attribute: byte, rest: seq<byte>)
    ensures Details([SF, attribute] + rest) == [OrderSf, Attribute(attribute)] + Details(rest)
  {
    var data := [SF, attribute] + rest;
    assert data[0] == SF && data[1] == attribute && Skip(data, 2) == rest;
  }

  ghost predicate EndsRun(tail: seq<byte>) {
    tail == [] || IsStop(tail[0])
  }

  lemma RunOfClean(text: seq<byte>, tail: seq<byte>)
    requires Clean(text) && EndsRun(tail)
    ensures RunLength(text + tail) == |text|
  {
    var data := text + tail;
    assert forall k :: 0 <= k < |text| ==> data[k] in text;
    assert tail != [] ==> data[|text|] == tail[0];
  }

  lemma RunOfUnclean(text: seq<byte>, tail: seq<byte>)
    requires !Clean(text)
    ensures RunLength(text + tail) < |text|
  {
    var k :| 0 <= k < |text| && IsStop(text[k]);
    assert (text + tail)[k] == text[k];
  }

  /** Clean text is reported as one run; text with a stop byte in it is not. */
  lemma DetailsOfText(text: seq<byte>, tail: seq<byte>, report: seq<Detail>)
    requires EndsRun(tail)
    ensures Details(text + tail) == TextDetails(text) + report <==> Clean(text) && Details(tail) == report
  {
    var data := text + tail;
    if text == [] {
      assert data == tail && [] + report == report;
    } else {
      var first := First(data).0;
      assert data[0] == text[0];
      if Clean(text) {
        RunOfClean(text, tail);
        assert !IsStop(text[0]) by { assert text[0] in text; }
        assert data[..|text|] == text && Skip(data, |text|) == tail;
        assert Details(data) == [DataDetail(text)] + Details(tail);
        assert ([DataDetail(text)] + Details(tail))[1..] == Details(tail);
        assert ([DataDetail(text)] + report)[1..] == report;
      } else {
        RunOfUnclean(text, tail);
        assert Details(data)[0] == first[0];
        assert first[0] != DataDetail(text);
        assert (TextDetails(text) + report)[0] == DataDetail(text);
      }
    }
  }

  lemma OptionsEndRun(texts: seq<seq<byte>>, row: nat, width: nat)
    ensures EndsRun(OptionsBytes(texts, row, width))
  {
  }

  function OptionFront(address: nat): (front: seq<Detail>)
    ensures |front| == 4
  {
    [OrderSba, AddressDetail(address), OrderSf, Attribute(MENU_ATTRIBUTE)]
  }

  lemma {:induction false} OptionsExact(texts: seq<seq<byte>>, row: nat, width: nat)
    ensures Details(OptionsBytes(texts, row, width)) == OptionsDetails(texts, row, width)
      <==> OptionsClean(texts, row, width)
    decreases |texts|
  {
    if texts != [] {
      var tail := OptionsBytes(texts[1..], row + 1, width);
      OptionsExact(texts[1..], row + 1, width);
      OptionsEndRun(texts[1..], row + 1, width);
      var report := OptionsDetails(texts[1..], row + 1, width);
      OptionExact(texts[0], row * width, tail, report);
      assert OptionsBytes(texts, row, width) == SetAddress(row * width) + [SF, MENU_ATTRIBUTE] + texts[0] + tail;
      assert OptionsDetails(texts, row, width) == OptionFront(row * width) + (TextDetails(texts[0]) + report);
    }
  }

  /** One option is reported as built exactly when its address and its text come through. */
  lemma OptionExact(text: seq<byte>, address: nat, tail: seq<byte>, report: seq<Detail>)
    requires EndsRun(tail)
    ensures Details(SetAddress(address) + [SF, MENU_ATTRIBUTE] + text + tail)
         == OptionFront(address) + (TextDetails(text) + report)
      <==> address < 4096 && Clean(text) && Details(tail) == report
  {
    DetailsOfText(text, tail, report);
    DetailsOfOption(text, address, tail);
    AddressRoundTrip(address);
    SamePrefix(address % 4096, address, Details(text + tail), TextDetails(text) + report);
  }

  lemma DetailsOfOption(text: seq<byte>, address: nat, tail: seq<byte>)
    ensures Details(SetAddress(address) + [SF, MENU_ATTRIBUTE] + text + tail)
         == OptionFront(address % 4096) + Details(text + tail)
  {
    Regroup(SetAddress(address), [SF, MENU_ATTRIBUTE], text, tail);
    DetailsOfSba(address, [SF, MENU_ATTRIBUTE] + (text + tail));
    DetailsOfSf(MENU_ATTRIBUTE, text + tail);
    Fourfold(address % 4096, Details(text + tail));
  }

  lemma Fourfold(address: nat, d: seq<Detail>)
    ensures [OrderSba, AddressDetail(address)] + ([OrderSf, Attribute(MENU_ATTRIBUTE)] + d) == OptionFront(address) + d
  {
  }

  lemma SamePrefix(a: nat, b: nat, x: seq<Detail>, y: seq<Detail>)
    ensures OptionFront(a) + x == OptionFront(b) + y <==> a == b && x == y
  {
    var p, q := OptionFront(a) + x, OptionFront(b) + y;
    assert p[4..] == x && q[4..] == y;
    assert p[1] == AddressDetail(a) && q[1] == AddressDetail(b);
  }

  /**
   * The analyzer reports a menu screen as it was built, the control character, the title, and every
   * option with its address, its field and its text, exactly when every address is below 4096 and
   * no text contains a byte the analyzer takes for a command or an order.
   */
  lemma MenuParsesExactly(title: seq<byte>, texts: seq<seq<byte>>, width: nat)
    ensures Details(MenuBytes(title, texts, width)) == MenuDetails(title, texts, width)
      <==> Clean(title) && OptionsClean(texts, 2, width)
  {
    var tail := OptionsBytes(texts, 2, width);
    var report := OptionsDetails(texts, 2, width);
    OptionsEndRun(texts, 2, width);
    OptionsExact(texts, 2, width);
    DetailsOfText(title, tail, report);
    DetailsOfTitle(title, tail);
    var front := [Data(1, [0]), OrderSba, AddressDetail(0)];
    assert (front + Details(title + tail))[3..] == Details(title + tail);
    assert (front + (TextDetails(title) + report))[3..] == TextDetails(title) + report;
  }

  lemma DetailsOfTitle(title: seq<byte>, tail: seq<byte>)
    ensures Details([0] + SetAddress(0) + title + tail)
         == [Data(1, [0]), OrderSba, AddressDetail(0)] + Details(title + tail)
  {
    Regroup([0], SetAddress(0), title, tail);
    DetailsOfControl(SetAddress(0) + (title + tail));
    DetailsOfSba(0, title + tail);
    Threefold(Details(title + tail));
  }

  lemma DetailsOfControl(body: seq<byte>)
    requires body != [] && body[0] == SBA
    ensures Details([0] + body) == [Data(1, [0])] + Details(body)
  {
    var data := [0] + body;
    RunOfClean([0], body);
    assert data[..1] == [0] && Skip(data, 1) == body;
    assert DataDetail([0]) == Data(1, [0]);
  }

  lemma Threefold(d: seq<Detail>)
    ensures [Data(1, [0])] + ([OrderSba, AddressDetail(0)] + d) == [Data(1, [0]), OrderSba, AddressDetail(0)] + d
  {
  }

  // ------------------------------------------------------------------------------------------
  // Printable text
  // ------------------------------------------------------------------------------------------

  predicate IsPrintable(text: string) {
    forall i :: 0 <= i < |text| ==> ' ' <= text[i] <= '~'
  }

  /** A printable ASCII character in code page 037; only the equals sign becomes a stop byte. */
  function Ebcdic037(c: char): (b: byte)
    requires ' ' <= c <= '~'
    ensures IsStop(b) <==> c == '='
  {
    if '0' <= c <= '9' then 0xF0 + (c - '0') as int
    else if 'A' <= c <= 'I' then 0xC1 + (c - 'A') as int
    else if 'J' <= c <= 'R' then 0xD1 + (c - 'J') as int
    else if 'S' <= c <= 'Z' then 0xE2 + (c - 'S') as int
    else if 'a' <= c <= 'i' then 0x81 + (c - 'a') as int
    else if 'j' <= c <= 'r' then 0x91 + (c - 'j') as int
    else if 's' <= c <= 'z' then 0xA2 + (c - 's') as int
    else Punctuation037(c)
  }

  function Punctuation037(c: char): (b: byte)
    ensures IsStop(b) <==> c == '='
  {
    match c
    case ' ' => 0x40
    case '!' => 0x5A
    case '\"' => 0x7F
    case '#' => 0x7B
    case '$' => 0x5B
    case '%' => 0x6C
    case '&' => 0x50
    case '\'' => 0x7D
    case '(' => 0x4D
    case ')' => 0x5D
    case '*' => 0x5C
    case '+' => 0x4E
    case ',' => 0x6B
    case '-' => 0x60
    case '.' => 0x4B
    case '/' => 0x61
    case ':' => 0x7A
    case ';' => 0x5E
    case '<' => 0x4C
    case '=' => 0x7E
    case '>' => 0x6E
    case '?' => 0x6F
    case '@' => 0x7C
    case '[' => 0xBA
    case '\\' => 0xE0
    case ']' => 0xBB
    case '^' => 0xB0
    case '_' => 0x6D
    case '`' => 0x79
    case '{' => 0xC0
    case '|' => 0x4F
    case '}' => 0xD0
    case _ => 0xA1
  }

  function Encode037(text: string): (bs: seq<byte>)
    requires IsPrintable(text)
    ensures |bs| == |text| && forall i :: 0 <= i < |bs| ==> bs[i] == Ebcdic037(text[i])
  {
    seq(|text|, i requires 0 <= i < |text| => Ebcdic037(text[i]))
  }

  /** Printable text is read back as one run exactly when it has no equals sign. */
  lemma PrintableIsClean(text: string)
    requires IsPrintable(text)
    ensures Clean(Encode037(text)) <==> '=' !in text
  {
    var bs := Encode037(text);
    if '=' in text {
      var i :| 0 <= i < |text| && text[i] == '=';
      assert bs[i] in bs && IsStop(bs[i]);
    } else {
      forall b <- bs ensures !IsStop(b) {
        var i :| 0 <= i < |bs| && bs[i] == b;
      }
    }
  }

  /** The address of the `i`-th option fits twelve bits, and its text comes through. */
  predicate OptionClean(texts: seq<seq<byte>>, row: nat, width: nat, i: nat)
    requires i < |texts|
  {
    (row + i) * width < 4096 && Clean(texts[i])
  }

  lemma {:induction false} OptionsCleanExactly(texts: seq<seq<byte>>, row: nat, width: nat)
    ensures OptionsClean(texts, row, width) <==> forall i :: 0 <= i < |texts| ==> OptionClean(texts, row, width, i)
    decreases |texts|
  {
    if texts != [] {
      var rest := texts[1..];
      OptionsCleanExactly(rest, row + 1, width);
      assert OptionClean(texts, row, width, 0) <==> row * width < 4096 && Clean(texts[0]);
      forall i {:trigger OptionClean(rest, row + 1, width, i)} | 0 <= i < |rest|
        ensures OptionClean(rest, row + 1, width, i) <==> OptionClean(texts, row, width, i + 1)
      {
        assert row + 1 + i == row + (i + 1);
      }
      forall i | 0 < i < |texts|
        ensures OptionClean(texts, row, width, i) <==> OptionClean(rest, row + 1, width, i - 1)
      {
        assert row + 1 + (i - 1) == row + i;
      }
    }
  }

  function EncodeAll037(texts: seq<string>): (encoded: seq<seq<byte>>)
    requires forall i :: 0 <= i < |texts| ==> IsPrintable(texts[i])
    ensures |encoded| == |texts| && forall i :: 0 <= i < |texts| ==> encoded[i] == Encode037(texts[i])
  {
    seq(|texts|, i requires 0 <= i < |texts| => Encode037(texts[i]))
  }

  /** The address of the `i`-th option of a menu fits twelve bits, and its text has no equals sign. */
  predicate PlainOption(texts: seq<string>, width: nat, i: nat)
    requires i < |texts|
  {
    (2 + i) * width < 4096 && '=' !in texts[i]
  }

  /** A menu of printable texts is read back as built exactly when no text has an equals sign and all addresses fit. */
  lemma PrintableMenuExactly(title: string, texts: seq<string>, width: nat)
    requires IsPrintable(title) && forall i :: 0 <= i < |texts| ==> IsPrintable(texts[i])
    ensures Details(MenuBytes(Encode037(title), EncodeAll037(texts), width))
         == MenuDetails(Encode037(title), EncodeAll037(texts), width)
      <==> '=' !in title && forall i :: 0 <= i < |texts| ==> PlainOption(texts, width, i)
  {
    var encoded := EncodeAll037(texts);
    MenuParsesExactly(Encode037(title), encoded, width);
    PrintableIsClean(title);
    OptionsCleanExactly(encoded, 2, width);
    forall i | 0 <= i < |texts| ensures OptionClean(encoded, 2, width, i) <==> PlainOption(texts, width, i) {
      PrintableIsClean(texts[i]);
    }
  }

  // ------------------------------------------------------------------------------------------
  // Byte by byte
  // ------------------------------------------------------------------------------------------

  /** Both address bytes have the bit 0x40 set and 0x80 clear, and the order is that of the address's bits. */
  lemma AddressBytesExactly(row: nat, col: nat, width: nat)
    ensures var order := BuildSba(row, col, width); var address := row * width + col;
      && |order| == 3 && order[0] == 0x11 && 0x40 <= order[1] <= 0x7F && 0x40 <= order[2] <= 0x7F
      && (order[1] as int - 0x40) * 64 + (order[2] as int - 0x40) == address % 4096
  {
    SixBitHalves(row * width + col);
  }

  /** A menu begins with a zero byte and the title at address 0; each option has an order, an attribute and its text. */
  lemma MenuExactly(title: seq<byte>, texts: seq<seq<byte>>, width: nat)
    ensures MenuBytes(title, texts, width) == [0x00, 0x11, 0x40, 0x40] + title + OptionsBytes(texts, 2, width)
    ensures forall text, row ::
      OptionBytes(text, row, width) == BuildSba(row, 0, width) + [0x1D, 0xF0] + text
  {
    assert BuildSba(0, 0, width) == [0x11, 0x40, 0x40];
    assert [0x00] + [0x11, 0x40, 0x40] == [0x00, 0x11, 0x40, 0x40];
    forall text, row ensures OptionBytes(text, row, width) == BuildSba(row, 0, width) + [0x1D, 0xF0] + text {}
  }

  /** The eight bytes that end a run of data. */
  lemma StopBytesExactly(b: byte)
    ensures IsStop(b) <==> b in {0x01, 0x05, 0x7E, 0x11, 0x1D, 0x13, 0x29, 0x3C}
  {
  }

  /** The report goes on where the item ends, as far as there is anything left. */
  lemma ReportGoesOn(data: seq<byte>)
    requires data != []
    ensures var (report, n) := First(data); n > 0 && Details(data) == report + Details(data[Min(n, |data|)..])
  {
  }

  /** The address in two bytes, of which the low six bits count. */
  function TwelveBits(high: byte, low: byte): nat {
    (high as int % 64) * 64 + low as int % 64
  }

  /** A command is reported with the control character behind it, if there is one; the cursor order stands alone. */
  lemma CommandReported(b: byte, rest: seq<byte>)
    ensures b in {0x01, 0x05, 0x7E} ==>
      First([b] + rest) == if rest == [] then ([Command(b)], 1) else ([Command(b), Wcc(rest[0])], 2)
    ensures First([0x13] + rest) == ([OrderIc], 1)
  {
    if rest != [] { assert ([b] + rest)[1] == rest[0]; }
  }

  /** A repetition is reported with its target and its character, if all three bytes are there. */
  lemma RepeatReported(rest: seq<byte>)
    ensures |rest| < 3 ==> First([0x3C] + rest) == ([OrderRa], 1)
    ensures |rest| >= 3 ==>
      var target := TwelveBits(rest[0], rest[1]);
      First([0x3C] + rest) == ([OrderRa, RepeatTo(target, target / 80, target % 80, rest[2])], 4)
  {
    if |rest| >= 3 {
      var data := [0x3C] + rest;
      assert data[1] == rest[0] && data[2] == rest[1] && data[3] == rest[2];
    }
  }

  /** An address order is reported with its address, if both bytes are there. */
  lemma AddressReported(rest: seq<byte>)
    ensures |rest| < 2 ==> First([0x11] + rest) == ([OrderSba], 1)
    ensures |rest| >= 2 ==>
      var address := TwelveBits(rest[0], rest[1]);
      First([0x11] + rest) == ([OrderSba, Address(address, address / 80, address % 80)], 3)
  {
    if |rest| >= 2 {
      var data := [0x11] + rest;
      assert data[1] == rest[0] && data[2] == rest[1];
    }
  }

  /** A field is reported with its attribute, and an extended one with its count of pairs, which are skipped. */
  lemma FieldsReported(rest: seq<byte>)
    ensures First([0x1D] + rest) == if rest == [] then ([OrderSf], 1) else ([OrderSf, Attribute(rest[0])], 2)
    ensures First([0x29] + rest) ==
      if rest == [] then ([OrderSfe], 1) else ([OrderSfe, Pairs(rest[0])], 2 + 2 * rest[0] as int)
  {
    if rest != [] { assert ([0x1D] + rest)[1] == rest[0] == ([0x29] + rest)[1]; }
  }

  /** Data is reported run by run, with the length of the run and at most eight bytes of it. */
  lemma RunReported(run: seq<byte>, rest: seq<byte>)
    requires run != [] && Clean(run) && (rest == [] || IsStop(rest[0]))
    ensures Details(run + rest) == [Data(|run|, if |run| <= 8 then run else run[..8])] + Details(rest)
  {
    DetailsOfText(run, rest, Details(rest));
    assert run[..Min(8, |run|)] == if |run| <= 8 then run else run[..8];
  }
}
