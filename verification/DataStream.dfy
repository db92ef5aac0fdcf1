/** The builder and the analyzer as the loops they are. */
module DataStream {
  import opened Common
  import opened DataStreamModel

  function Texts(encode: string -> seq<byte>, options: seq<(string, string)>): (texts: seq<seq<byte>>)
    ensures |texts| == |options|
    ensures forall i :: 0 <= i < |texts| ==> texts[i] == encode(options[i].0 + ": " + options[i].1)
  {
    seq(|options|, i requires 0 <= i < |options| => encode(options[i].0 + ": " + options[i].1))
  }

  lemma OptionsBytesSnoc(texts: seq<seq<byte>>, text: seq<byte>, row: nat, width: nat)
    ensures OptionsBytes(texts + [text], row, width)
         == OptionsBytes(texts, row, width) + OptionBytes(text, row + |texts|, width)
    decreases |texts|
  {
    if texts == [] {
      assert [text][1..] == [];
    } else {
      assert (texts + [text])[1..] == texts[1..] + [text];
      OptionsBytesSnoc(texts[1..], text, row + 1, width);
    }
  }

  /** Build a menu screen: a control character, the title, and one row per option from row 2 on. */
  method BuildMenuScreen(encode: string -> seq<byte>, title: string, options: seq<(string, string)>, width: nat)
    returns (buffer: seq<byte>)
    ensures buffer == MenuBytes(encode(title), Texts(encode, options), width)
    ensures Details(buffer) == MenuDetails(encode(title), Texts(encode, options), width)
      <==> Clean(encode(title)) && OptionsClean(Texts(encode, options), 2, width)
  {
    buffer := [0];
    buffer := buffer + BuildSba(0, 0, width);
    buffer := buffer + encode(title);
    ghost var front := buffer;
    ghost var texts := Texts(encode, options);
    var i := 0;
    while i < |options|
      invariant 0 <= i <= |options|
      invariant buffer == front + OptionsBytes(texts[..i], 2, width)
    {
      var (name, description) := options[i];
      var row := 2 + i;
      assert texts[..i + 1] == texts[..i] + [texts[i]];
      OptionsBytesSnoc(texts[..i], texts[i], 2, width);
      buffer := buffer + BuildSba(row, 0, width);
      buffer := buffer + [SF, MENU_ATTRIBUTE];
      buffer := buffer + encode(MenuText(name, description));
      i := i + 1;
    }
    assert texts[..i] == texts;
    MenuParsesExactly(encode(title), texts, width);
  }

  /** Report on a data stream, command by command, order by order and run by run. */
  method Parse3270Stream(data: seq<byte>) returns (details: seq<Detail>)
    ensures details == Details(data)
  {
    details := [];
    var i := 0;
    while i < |data|
      invariant 0 <= i
      invariant details + Details(Skip(data, i)) == Details(data)
      decreases |data| - i
    {
      ghost var rest := data[i..];
      var more, next := ReportNext(data, i);
      assert Skip(rest, First(rest).1) == Skip(data, next);
      Assoc(details, more, Details(Skip(data, next)));
      details := details + more;
      i := next;
    }
    assert Skip(data, i) == [];
    assert details + [] == details;
  }

  /** One turn of the analyzer's loop: the details found at `from` and where it goes on. */
  method ReportNext(data: seq<byte>, from: nat) returns (details: seq<Detail>, i: nat)
    requires from < |data|
    ensures (details, i - from) == First(data[from..])
  {
    i := from;
    var b := data[i];
    if b == WRITE || b == ERASE_WRITE || b == ERASE_WRITE_ALTERNATE {
      details := [Command(b)];
      i := i + 1;
      if i < |data| {
        details := details + [Wcc(data[i])];
        i := i + 1;
      }
    } else if b == SBA {
      details := [OrderSba];
      if i + 2 < |data| {
        details := details + [AddressDetail(DecodeAddress(data[i + 1], data[i + 2]))];
        i := i + 3;
      } else {
        i := i + 1;
      }
    } else if b == RA {
      details := [OrderRa];
      if i + 3 < |data| {
        var target := DecodeAddress(data[i + 1], data[i + 2]);
        details := details + [RepeatTo(target, target / ANALYZER_WIDTH, target % ANALYZER_WIDTH, data[i + 3])];
        i := i + 4;
      } else {
        i := i + 1;
      }
    } else if b == SF {
      details := [OrderSf];
      if i + 1 < |data| {
        details := details + [Attribute(data[i + 1])];
        i := i + 2;
      } else {
        i := i + 1;
      }
    } else if b == IC {
      details := [OrderIc];
      i := i + 1;
    } else if b == SFE {
      details := [OrderSfe];
      i := i + 1;
      if i < |data| {
        var count := data[i];
        details := details + [Pairs(count)];
        i := i + 1 + count as int * 2;
      }
    } else {
      while i < |data| && !IsStop(data[i])
        invariant from <= i <= |data|
        invariant i - from + RunLength(data[i..]) == RunLength(data[from..])
      {
        assert data[i..][1..] == data[i + 1..];
        i := i + 1;
      }
      assert i == from + RunLength(data[from..]);
      assert data[from..i] == data[from..][..RunLength(data[from..])];
      details := [DataDetail(data[from..i])];
    }
    assert details == First(data[from..]).0;
  }
}
