/**
 * IND$FILE messages and the structured field that carries them.
 *
 * A frame is 0x88, a 16-bit big-endian length, the type byte 0xD0 and the message. The length
 * written by the sender counts the two length bytes, the type byte and the message, so a frame
 * occupies one byte more than its length field says.
 */
module IndFileMessages {
  import opened Common

  const SF_ID: byte := 0x88
  const IND_FILE_SF_TYPE: byte := 0xD0

  const IND_FILE_UPLOAD: byte := 0x00
  const IND_FILE_DOWNLOAD: byte := 0x01
  const IND_FILE_DATA: byte := 0x02
  const IND_FILE_EOF: byte := 0x03
  const IND_FILE_ERROR: byte := 0x04

  /** The largest payload whose frame length still fits two bytes. */
  const MAX_PAYLOAD := 65531

  datatype Message = Message(subCommand: byte, payload: seq<byte>)

  datatype DecodeError = TooShort | NotAFrame | Truncated

  predicate IsAscii(s: string) {
    forall c <- s :: c < 128 as char
  }

  /** `str.encode("ascii")`: fails on any character outside ASCII. */
  function EncodeAscii(s: string): (r: Option<seq<byte>>)
    ensures r.Some? <==> IsAscii(s)
    ensures r.Some? ==> |r.value| == |s| && forall i :: 0 <= i < |s| ==> r.value[i] == s[i] as int < 128
  {
    if s == [] then Some([])
    else if s[0] >= 128 as char then assert s[0] in s; None
    else
      match EncodeAscii(s[1..])
      case None => assert forall c <- s[1..] :: c in s; None
      case Some(rest) =>
        assert s == [s[0]] + s[1..];
        Some([s[0] as int] + rest)
  }

  /** `bytes.decode("ascii", errors="replace")`. */
  function DecodeAscii(bs: seq<byte>): (s: string)
    ensures |s| == |bs|
    ensures forall i :: 0 <= i < |bs| ==> s[i] == if bs[i] < 128 then bs[i] as char else '\U{FFFD}'
  {
    seq(|bs|, i requires 0 <= i < |bs| => if bs[i] < 128 then bs[i] as char else '\U{FFFD}')
  }

  lemma AsciiRoundTrip(s: string)
    requires IsAscii(s)
    ensures DecodeAscii(EncodeAscii(s).value) == s
  {
    var bs := EncodeAscii(s).value;
    forall i | 0 <= i < |s| ensures DecodeAscii(bs)[i] == s[i] {
      assert bs[i] == s[i] as int;
    }
  }

  /** A file name as it travels in a request, or None when it is not ASCII. */
  function NamePayload(name: string): Option<seq<byte>> {
    match EncodeAscii(name)
    case None => None
    case Some(bs) => Some(bs + [0])
  }

  function CreateUploadRequest(name: string): Option<Message> {
    match NamePayload(name)
    case None => None
    case Some(p) => Some(Message(IND_FILE_UPLOAD, p))
  }

  function CreateDownloadRequest(name: string): Option<Message> {
    match NamePayload(name)
    case None => None
    case Some(p) => Some(Message(IND_FILE_DOWNLOAD, p))
  }

  function CreateData(data: seq<byte>): Message {
    Message(IND_FILE_DATA, data)
  }

  function CreateEof(): Message {
    Message(IND_FILE_EOF, [])
  }

  function CreateError(text: string): Option<Message> {
    match EncodeAscii(text)
    case None => None
    case Some(p) => Some(Message(IND_FILE_ERROR, p))
  }

  /** `bs` are the characters of `text`. */
  predicate SpellsOut(bs: seq<byte>, text: string) {
    |bs| == |text| && forall i :: 0 <= i < |bs| ==> bs[i] == text[i] as int
  }

  /** The bytes of both requests: the sub-command tells them apart, then the name, then a NUL. */
  lemma RequestsExactly(name: string)
    ensures CreateUploadRequest(name).Some? <==> IsAscii(name)
    ensures CreateDownloadRequest(name).Some? <==> IsAscii(name)
    ensures IsAscii(name) ==>
      var up, down := ToBytes(CreateUploadRequest(name).value), ToBytes(CreateDownloadRequest(name).value);
      && |up| == |name| + 2 && up[0] == 0x00 && SpellsOut(up[1..|name| + 1], name) && up[|name| + 1] == 0x00
      && |down| == |name| + 2 && down[0] == 0x01 && down[1..] == up[1..]
  {
    if IsAscii(name) {
      var bs := EncodeAscii(name).value;
      var up := ToBytes(CreateUploadRequest(name).value);
      assert up == [0x00] + bs + [0x00];
      assert up[1..|name| + 1] == bs;
    }
  }

  /** The bytes of the other messages. */
  lemma MessagesExactly(data: seq<byte>, text: string)
    ensures ToBytes(CreateData(data)) == [0x02] + data
    ensures ToBytes(CreateEof()) == [0x03]
    ensures CreateError(text).Some? <==> IsAscii(text)
    ensures IsAscii(text) ==>
      var e := ToBytes(CreateError(text).value); |e| == |text| + 1 && e[0] == 0x04 && SpellsOut(e[1..], text)
  {
    if IsAscii(text) {
      assert ToBytes(CreateError(text).value)[1..] == EncodeAscii(text).value;
    }
  }

  /** The bytes before the first occurrence of `b`, all of them when there is none. */
  function Before(bs: seq<byte>, b: byte): seq<byte> {
    if bs == [] || bs[0] == b then [] else [bs[0]] + Before(bs[1..], b)
  }

  function GetFilename(m: Message): Option<string> {
    if 0 in m.payload then Some(DecodeAscii(Before(m.payload, 0))) else None
  }

  lemma BeforeTerminator(bs: seq<byte>, tail: seq<byte>)
    ensures Before(bs + [0] + tail, 0) == bs <==> 0 !in bs
  {
    if bs != [] {
      assert (bs + [0] + tail)[1..] == bs[1..] + [0] + tail;
      BeforeTerminator(bs[1..], tail);
    }
  }

  /**
   * The host reads back the name that was requested exactly when the name holds no NUL: the first
   * NUL ends the name, whatever follows it.
   */
  lemma FilenameRoundTrip(name: string)
    requires IsAscii(name)
    ensures GetFilename(CreateUploadRequest(name).value) == Some(name) <==> 0 as char !in name
    ensures GetFilename(CreateDownloadRequest(name).value) == GetFilename(CreateUploadRequest(name).value)
  {
    var bs := EncodeAscii(name).value;
    assert bs + [0] == bs + [0] + [];
    BeforeTerminator(bs, []);
    AsciiRoundTrip(name);
    NulSurvives(name);
    assert (bs + [0])[|bs|] == 0;
    if 0 in bs {
      BeforeStops(bs + [0]);
      var i :| 0 <= i < |bs| && bs[i] == 0;
      assert (bs + [0])[i] == 0;
      assert |Before(bs + [0], 0)| <= i;
    }
  }

  lemma NulSurvives(name: string)
    requires IsAscii(name)
    ensures 0 in EncodeAscii(name).value <==> 0 as char in name
  {
    var bs := EncodeAscii(name).value;
    if 0 in bs { var i :| 0 <= i < |bs| && bs[i] == 0; assert name[i] == 0 as char; }
    if 0 as char in name { var i :| 0 <= i < |name| && name[i] == 0 as char; assert bs[i] == 0; }
  }

  lemma BeforeStops(bs: seq<byte>)
    ensures forall i :: 0 <= i < |bs| && bs[i] == 0 ==> |Before(bs, 0)| <= i
  {
  }

  /** A 16-bit big-endian number. */
  function Length16(high: byte, low: byte): nat {
    high as int * 256 + low as int
  }

  function ToBytes(m: Message): seq<byte> {
    [m.subCommand] + m.payload
  }

  function FromBytes(data: seq<byte>): Result<Message, DecodeError> {
    if |data| < 1 then Failure(TooShort)
    else Success(Message(data[0], data[1..]))
  }

  /** Encoding and decoding a message are inverse to each other, on every input either accepts. */
  lemma MessageRoundTrip(m: Message, data: seq<byte>)
    ensures FromBytes(ToBytes(m)) == Success(m)
    ensures FromBytes(data).Success? <==> data != []
    ensures FromBytes(data).Success? ==> ToBytes(FromBytes(data).value) == data
  {
    assert ToBytes(m)[1..] == m.payload;
  }

  /** The bytes handed to the session for one message; the length keeps its low sixteen bits only. */
  function Frame(m: Message): (f: seq<byte>)
    ensures |f| == |m.payload| + 5
  {
    var messageData := ToBytes(m);
    var length := |messageData| + 3;
    [SF_ID, (length / 256) % 256, length % 256, IND_FILE_SF_TYPE] + messageData
  }

  /** A frame byte by byte. */
  lemma FrameExactly(m: Message)
    ensures var f := Frame(m);
      && f[0] == 0x88 && Length16(f[1], f[2]) == (|m.payload| + 4) % 0x10000 && f[3] == 0xD0
      && f[4..] == [m.subCommand] + m.payload
  {
    var length := |m.payload| + 4;
    LowSixteenBits(length);
    assert Frame(m)[..4] == [0x88, (length / 256) % 256, length % 256, 0xD0];
    assert Frame(m)[4..] == ToBytes(m);
  }

  lemma LowSixteenBits(n: nat)
    ensures ((n / 256) % 256) * 256 + n % 256 == n % 0x10000
  {
    var q, r := n / 256, n % 256;
    var q', r' := q / 256, q % 256;
    assert n == (q' * 256 + r') * 256 + r == q' * 0x10000 + (r' * 256 + r);
  }

  function FrameAll(ms: seq<Message>): seq<byte> {
    if ms == [] then [] else Frame(ms[0]) + FrameAll(ms[1..])
  }

  lemma FrameAllAppend(a: seq<Message>, b: seq<Message>)
    ensures FrameAll(a + b) == FrameAll(a) + FrameAll(b)
  {
    if a == [] {
      assert a + b == b;
    } else {
      assert (a + b)[1..] == a[1..] + b;
      FrameAllAppend(a[1..], b);
      assert FrameAll(a) + FrameAll(b) == Frame(a[0]) + (FrameAll(a[1..]) + FrameAll(b));
    }
  }

  /** One frame taken off the front of a byte stream, as the length the sender writes delimits it. */
  function Cut(w: seq<byte>): (r: Result<(Message, seq<byte>), DecodeError>)
    ensures r.Success? ==> |r.value.1| < |w|
  {
    if |w| < 4 then Failure(Truncated)
    else if w[0] != SF_ID || w[3] != IND_FILE_SF_TYPE then Failure(NotAFrame)
    else
      var length := Length16(w[1], w[2]);
      if length < 3 then Failure(NotAFrame)
      else if |w| < length + 1 then Failure(Truncated)
      else
        match FromBytes(w[4..length + 1])
        case Failure(e) => Failure(e)
        case Success(m) => Success((m, w[length + 1..]))
  }

  /** Every message of a stream, or the first decoding error. */
  function CutAll(w: seq<byte>): Result<seq<Message>, DecodeError>
    decreases |w|
  {
    if w == [] then Success([])
    else
      match Cut(w)
      case Failure(e) => Failure(e)
      case Success((m, rest)) =>
        match CutAll(rest)
        case Failure(e) => Failure(e)
        case Success(ms) => Success([m] + ms)
  }

  predicate Fits(m: Message) {
    |m.payload| <= MAX_PAYLOAD
  }

  predicate AllFit(ms: seq<Message>) {
    forall m <- ms :: Fits(m)
  }

  /** Cutting undoes framing whatever follows, exactly when the payload is within the bound. */
  lemma CutFrame(m: Message, rest: seq<byte>)
    ensures Cut(Frame(m) + rest) == Success((m, rest)) <==> Fits(m)
  {
    var w := Frame(m) + rest;
    var length := |m.payload| + 4;
    assert w[..4] == [SF_ID, (length / 256) % 256, length % 256, IND_FILE_SF_TYPE];
    assert w[0] == SF_ID && w[1] == (length / 256) % 256 && w[2] == length % 256 && w[3] == IND_FILE_SF_TYPE;
    assert w[4..length + 1] == ToBytes(m);
    assert w[length + 1..] == rest;
    MessageRoundTrip(m, []);
    if Fits(m) {
      assert Length16(w[1], w[2]) == length;
    }
  }

  /** A whole stream of fitting frames decodes to the messages that were framed. */
  lemma {:induction false} CutAllFrames(ms: seq<Message>)
    requires AllFit(ms)
    ensures CutAll(FrameAll(ms)) == Success(ms)
  {
    if ms != [] {
      assert ms[0] in ms;
      CutFrame(ms[0], FrameAll(ms[1..]));
      CutAllFrames(ms[1..]);
      assert ms == [ms[0]] + ms[1..];
    }
  }

  /** Whatever the cutter accepts is a frame of a fitting message. */
  lemma CutSound(w: seq<byte>)
    requires Cut(w).Success?
    ensures Fits(Cut(w).value.0) && w == Frame(Cut(w).value.0) + Cut(w).value.1
  {
    var length := Length16(w[1], w[2]);
    var m := Cut(w).value.0;
    MessageRoundTrip(m, w[4..length + 1]);
    assert w == w[..4] + w[4..length + 1] + w[length + 1..];
    assert w[..4] == [SF_ID, (length / 256) % 256, length % 256, IND_FILE_SF_TYPE];
  }

  /**
   * Decoding a byte stream yields `ms` exactly when the stream is the framing of `ms` and every
   * message of it fits: streams decode uniquely, and the bound on the payload is exact.
   */
  lemma {:induction false} CutAllExact(w: seq<byte>, ms: seq<Message>)
    ensures CutAll(w) == Success(ms) <==> AllFit(ms) && w == FrameAll(ms)
    decreases |w|
  {
    if AllFit(ms) && w == FrameAll(ms) {
      CutAllFrames(ms);
    }
    if w != [] && CutAll(w) == Success(ms) {
      CutSound(w);
      var (m, rest) := Cut(w).value;
      var tail := CutAll(rest).value;
      CutAllExact(rest, tail);
      assert ms == [m] + tail;
      assert ms[1..] == tail;
    }
  }

  // ------------------------------------------------------------------------------------------
  // The repository's own reader
  // ------------------------------------------------------------------------------------------

  /**
   * The message the repository's own structured field reader hands to the IND$FILE handler for the
   * first field of `w`. The order loop reads the identifier and calls the reader, which drops one
   * more identifier if it finds one. The reader takes the length to count the type byte and the data
   * only, and shortens the data to what is available. None stands for a field that reaches no
   * IND$FILE handler or that the handler cannot decode.
   */
  function TolerantRead(w: seq<byte>): Option<Message> {
    if w == [] || w[0] != SF_ID then None
    else if |w| > 1 && w[1] == SF_ID then ReadField(w[2..])
    else ReadField(w[1..])
  }

  /** A field from its length on. */
  function ReadField(f: seq<byte>): Option<Message> {
    if |f| < 3 then None
    else
      var length := Length16(f[0], f[1]);
      if length > |f| - 2 + 1000 || f[2] != IND_FILE_SF_TYPE then None
      else
        match FromBytes(f[3..3 + Min(if length < 1 then 0 else length - 1, |f| - 3)])
        case Failure(_) => None
        case Success(m) => Some(m)
  }

  /** The high byte of the length of the frame of `m` is the identifier of structured fields. */
  predicate LengthLooksLikeId(m: Message) {
    (|m.payload| + 4) / 256 == SF_ID as int
  }

  /** What a field of type IND$FILE from its length on is read as, when it is not far too long. */
  lemma ReadFieldExact(high: byte, low: byte, data: seq<byte>)
    requires Length16(high, low) <= |data| + 1001
    ensures var n := Min(if Length16(high, low) < 1 then 0 else Length16(high, low) - 1, |data|);
      ReadField([high, low, IND_FILE_SF_TYPE] + data)
      == if n == 0 then None else Some(Message(data[0], data[1..n]))
  {
    var f := [high, low, IND_FILE_SF_TYPE] + data;
    var n := Min(if Length16(high, low) < 1 then 0 else Length16(high, low) - 1, |data|);
    assert f[3..3 + n] == data[..n];
    if n > 0 { assert data[..n][1..] == data[1..n]; }
  }

  /**
   * Sender and reader disagree by two about what the length counts, so the reader swallows up to two
   * bytes of what follows the frame, unless the high byte of the length is taken for an identifier.
   */
  lemma ReadsTooFar(m: Message, rest: seq<byte>)
    requires Fits(m) && !LengthLooksLikeId(m)
    ensures TolerantRead(Frame(m) + rest) == Some(Message(m.subCommand, m.payload + rest[..Min(2, |rest|)]))
  {
    var length := |m.payload| + 4;
    var high: byte, low: byte := length / 256, length % 256;
    FrameFromLength(m, rest, high, low);
    assert Length16(high, low) == length;
    ReadFieldExact(high, low, ToBytes(m) + rest);
    AfterSubCommand(m, rest, Min(length - 1, |m.payload| + 1 + |rest|));
  }

  lemma FrameFromLength(m: Message, rest: seq<byte>, high: byte, low: byte)
    requires Fits(m) && high == (|m.payload| + 4) / 256 && low == (|m.payload| + 4) % 256
    ensures var w := Frame(m) + rest;
      w[0] == SF_ID && w[1] == high && w[1..] == [high, low, IND_FILE_SF_TYPE] + (ToBytes(m) + rest)
  {
  }

  lemma AfterSubCommand(m: Message, rest: seq<byte>, n: nat)
    requires |m.payload| < n <= 1 + |m.payload| + |rest|
    ensures (ToBytes(m) + rest)[1..n] == m.payload + rest[..n - 1 - |m.payload|]
    ensures (ToBytes(m) + rest)[0] == m.subCommand
  {
    assert (ToBytes(m) + rest)[1..] == m.payload + rest;
    assert (ToBytes(m) + rest)[1..n] == (m.payload + rest)[..n - 1];
    PrefixOfAppend(m.payload, rest, n - 1);
  }

  lemma PrefixOfAppend(a: seq<byte>, b: seq<byte>, n: nat)
    requires |a| <= n <= |a| + |b|
    ensures (a + b)[..n] == a + b[..n - |a|]
  {
  }

  /** With such a length the reader is one byte off: it takes the sub-command for the type of the field. */
  lemma ReadsOneOff(m: Message, rest: seq<byte>)
    requires Fits(m) && LengthLooksLikeId(m)
    ensures TolerantRead(Frame(m) + rest) ==
      ReadField([(|m.payload| + 4) % 256, IND_FILE_SF_TYPE, m.subCommand] + (m.payload + rest))
    ensures m.subCommand != IND_FILE_SF_TYPE ==> TolerantRead(Frame(m) + rest) == None
  {
    var w := Frame(m) + rest;
    var length := |m.payload| + 4;
    assert w[0] == SF_ID && w[1] == (length / 256) % 256 == SF_ID;
    assert w[2..] == [length % 256, IND_FILE_SF_TYPE, m.subCommand] + (m.payload + rest);
  }

  /**
   * The one family of frames the reader gets right by accident: nothing but type bytes, at lengths
   * where the misread length is cut down to what is there. Their sub-command is none of IND$FILE.
   */
  predicate OnlyTypeBytes(m: Message, rest: seq<byte>) {
    && m.subCommand == IND_FILE_SF_TYPE && rest == [IND_FILE_SF_TYPE]
    && 34948 <= |m.payload| <= 34951
    && forall b <- m.payload :: b == IND_FILE_SF_TYPE
  }

  lemma {:induction false} MisreadExact(m: Message, rest: seq<byte>)
    requires Fits(m) && LengthLooksLikeId(m)
    ensures TolerantRead(Frame(m) + rest) == Some(m) <==> OnlyTypeBytes(m, rest)
  {
    ReadsOneOff(m, rest);
    var low := (|m.payload| + 4) % 256;
    var data := m.payload + rest;
    assert |m.payload| == 34812 + low;
    var length := Length16(low, IND_FILE_SF_TYPE);
    if m.subCommand == IND_FILE_SF_TYPE && length <= |data| + 1001 {
      ReadFieldExact(low, IND_FILE_SF_TYPE, data);
      ShiftedPayload(m, rest, low);
    } else if m.subCommand == IND_FILE_SF_TYPE {
      assert ReadField([low, IND_FILE_SF_TYPE, m.subCommand] + data) == None;
    }
  }

  lemma ShiftedPayload(m: Message, rest: seq<byte>, low: byte)
    requires |m.payload| == 34812 + low && m.subCommand == IND_FILE_SF_TYPE
    requires low * 256 + 208 <= |m.payload| + |rest| + 1001
    ensures var data := m.payload + rest; var n := Min(low * 256 + 207, |data|);
      data[0] == IND_FILE_SF_TYPE && data[1..n] == m.payload <==> OnlyTypeBytes(m, rest)
  {
    var data := m.payload + rest;
    var n := Min(low * 256 + 207, |data|);
    if data[0] == IND_FILE_SF_TYPE && data[1..n] == m.payload {
      assert n == |m.payload| + 1 && 255 * low != 34606;
      assert data == m.payload + [rest[0]] && data[1..n] == data[1..];
      ShiftedByOne(m.payload, rest[0]);
    }
    if OnlyTypeBytes(m, rest) {
      forall k | 0 <= k < |data| ensures data[k] == IND_FILE_SF_TYPE {
        assert k < |m.payload| ==> data[k] == m.payload[k] && m.payload[k] in m.payload;
      }
      forall k | 0 <= k < |m.payload| ensures data[1..n][k] == m.payload[k] {
        assert m.payload[k] in m.payload && data[1..n][k] == data[k + 1];
      }
    }
  }

  /** Bytes that equal themselves moved by one are all the same. */
  lemma ShiftedByOne(p: seq<byte>, last: byte)
    requires p != [] && (p + [last])[1..] == p
    ensures last == p[0] && forall b <- p :: b == p[0]
  {
    forall k | 0 <= k < |p| ensures p[k] == p[0] {
      SameAsFirst(p, last, k);
    }
    assert (p + [last])[1..][|p| - 1] == last;
  }

  lemma {:induction false} SameAsFirst(p: seq<byte>, last: byte, k: nat)
    requires k < |p| && (p + [last])[1..] == p
    ensures p[k] == p[0]
  {
    if k > 0 {
      SameAsFirst(p, last, k - 1);
      assert p[k - 1] == (p + [last])[1..][k - 1];
    }
  }

  /**
   * The reader returns the message that was framed exactly when nothing follows the frame and the
   * high byte of its length is not the identifier; for IND$FILE messages there is no exception.
   */
  lemma TolerantReadExact(m: Message, rest: seq<byte>)
    requires Fits(m)
    ensures TolerantRead(Frame(m) + rest) == Some(m)
      <==> (rest == [] && !LengthLooksLikeId(m)) || OnlyTypeBytes(m, rest)
    ensures m.subCommand <= IND_FILE_ERROR ==>
      (TolerantRead(Frame(m) + rest) == Some(m) <==> rest == [] && !LengthLooksLikeId(m))
  {
    if LengthLooksLikeId(m) {
      MisreadExact(m, rest);
    } else {
      ReadsTooFar(m, rest);
      assert !(34948 <= |m.payload| <= 34951);
      assert rest == [] ==> m.payload + rest[..Min(2, |rest|)] == m.payload;
      assert |rest| > 0 ==> |m.payload + rest[..Min(2, |rest|)]| > |m.payload|;
    }
  }

  /** Of the fields that end their record, one with a payload of 34812 bytes is the shortest that never reaches the handler. */
  lemma ShortestMisread(m: Message)
    requires m.subCommand <= IND_FILE_ERROR && |m.payload| <= 34812
    ensures TolerantRead(Frame(m)) == Some(m) <==> |m.payload| < 34812
    ensures |m.payload| == 34812 ==> TolerantRead(Frame(m)) == None
  {
    TolerantReadExact(m, []);
    if LengthLooksLikeId(m) { ReadsOneOff(m, []); }
    assert Frame(m) + [] == Frame(m);
  }

  // ------------------------------------------------------------------------------------------
  // Whole records
  // ------------------------------------------------------------------------------------------

  /** The commands the data stream parser knows at the start of a record. */
  predicate IsWriteCommand(b: byte) {
    b == 0x01 || b == 0xF1 || b == 0x05 || b == 0xF5 || b == 0x0D || b == 0x6E || b == 0x7E
  }

  /**
   * What the parser leaves of a record for its order loop: a write command takes its control
   * character with it, and any other first byte is taken for a control character itself.
   */
  function Orders(record: seq<byte>): seq<byte> {
    if record == [] then []
    else if !IsWriteCommand(record[0]) then record[1..]
    else if |record| == 1 then []
    else record[2..]
  }

  /** What is left behind either kind of head, for every first byte. */
  lemma HeadsExactly(first: byte, second: byte, rest: seq<byte>)
    ensures Orders([first, second] + rest) ==
      if first in {0x01, 0xF1, 0x05, 0xF5, 0x0D, 0x6E, 0x7E} then rest else [second] + rest
  {
    var record := [first, second] + rest;
    assert record[1..] == [second] + rest && record[2..] == rest;
  }

  /** A control character, with a write command before it or without. */
  predicate IsHead(front: seq<byte>) {
    if |front| == 1 then !IsWriteCommand(front[0]) else |front| == 2 && IsWriteCommand(front[0])
  }

  /** The order loop meets a field first exactly when just such a head comes before it. */
  lemma OrdersExactly(front: seq<byte>, field: seq<byte>)
    requires field != []
    ensures Orders(front + field) == field <==> IsHead(front)
  {
    var record := front + field;
    if front != [] { assert record[0] == front[0]; }
    if IsHead(front) {
      assert record[|front|..] == field;
    }
  }

  /**
   * Behind a head, the field the order loop meets first is read as the message that was framed
   * exactly when nothing follows it in the record and the high byte of its length is no identifier.
   */
  lemma RecordReadExactly(front: seq<byte>, m: Message, rest: seq<byte>)
    requires IsHead(front) && Fits(m) && m.subCommand <= IND_FILE_ERROR
    ensures TolerantRead(Orders(front + (Frame(m) + rest))) == Some(m) <==> rest == [] && !LengthLooksLikeId(m)
  {
    OrdersExactly(front, Frame(m) + rest);
    TolerantReadExact(m, rest);
  }

  /**
   * A record that is only the frame, as the sender hands it over, loses its identifier: it is taken
   * for the control character. Wherever in the rest of the record the order loop meets a field, if it
   * meets one at all, the message read from there is another one.
   */
  lemma BareFrameIsLost(m: Message, at: nat)
    requires at <= |Orders(Frame(m))|
    ensures Orders(Frame(m)) == Frame(m)[1..]
    ensures TolerantRead(Orders(Frame(m))[at..]) != Some(m)
  {
    var left := Orders(Frame(m))[at..];
    ReadIsShorter(left);
    assert |left| < |Frame(m)|;
  }

  /** The fixed part of a field is not part of the message read from it. */
  lemma ReadIsShorter(w: seq<byte>)
    ensures TolerantRead(w).Some? ==> |TolerantRead(w).value.payload| + 5 <= |w|
  {
  }

  /** So a record holding one frame is read as its message exactly when a head precedes it and the length allows. */
  lemma SendersRecordExactly(front: seq<byte>, m: Message)
    requires (front == [] || IsHead(front)) && Fits(m) && m.subCommand <= IND_FILE_ERROR
    ensures TolerantRead(Orders(front + Frame(m))) == Some(m) <==> front != [] && !LengthLooksLikeId(m)
  {
    if front == [] {
      assert front + Frame(m) == Frame(m);
      BareFrameIsLost(m, 0);
      assert Orders(Frame(m))[0..] == Orders(Frame(m));
    } else {
      assert Frame(m) + [] == Frame(m);
      RecordReadExactly(front, m, []);
    }
  }
}
