/**
 * The "push integer through UDP" key action: on each key edge it renders the
 * key's title from its settings and sends an 8-byte datagram, the key's index
 * followed by the edge's value, each a signed little-endian 32-bit integer.
 */
module PushIntegerToUdp {
  import opened Wrappers
  import opened Int32LE
  import opened Decimal
  import opened TextLines

  /** The per-key settings; every field may be absent. */
  datatype Settings = Settings(
    integerIndex: Option<int>,
    integerValueDown: Option<int>,
    integerValueUp: Option<int>,
    useIntegerIndex: Option<bool>,
    ipAddress: Option<string>,
    ipPort: Option<string>)

  /** The two key events that send a datagram. */
  datatype Edge = KeyDown | KeyUp

  /** What a datagram carries, as a receiver reads it. */
  datatype Datagram = Datagram(index: int, value: int)

  /** Where a datagram goes: the address and the port text handed to the socket. */
  datatype Endpoint = Endpoint(address: string, port: string)

  const PayloadSize: nat := 8
  const IndexOffset: nat := 0
  const ValueOffset: nat := 4
  const DefaultAddress: string := "127.0.0.1"
  const DefaultPort: string := "3615"

  /** All three numbers are int32 values when present (needed where both edges are encoded). */
  predicate NumbersInInt32(s: Settings) {
    (s.integerIndex.Some? ==> IsInt32(s.integerIndex.value)) &&
    (s.integerValueDown.Some? ==> IsInt32(s.integerValueDown.value)) &&
    (s.integerValueUp.Some? ==> IsInt32(s.integerValueUp.value))
  }

  /** The index, 0 when absent; a present 0 or negative index is kept (`??` tests absence only). */
  function IndexOrZero(s: Settings): (r: int)
    ensures s.integerIndex.Some? ==> r == s.integerIndex.value
    ensures s.integerIndex.None? ==> r == 0
  {
    s.integerIndex.GetOr(0)
  }

  /** The value an edge sends: the "down" value on press, the "up" value on release, 0 when absent. */
  function EdgeValue(s: Settings, e: Edge): (r: int)
    ensures e == KeyDown && s.integerValueDown.Some? ==> r == s.integerValueDown.value
    ensures e == KeyUp && s.integerValueUp.Some? ==> r == s.integerValueUp.value
    ensures (e == KeyDown ==> s.integerValueDown.None?) && (e == KeyUp ==> s.integerValueUp.None?) ==> r == 0
    ensures NumbersInInt32(s) ==> IsInt32(r)
  {
    match e
    case KeyDown => s.integerValueDown.GetOr(0)
    case KeyUp => s.integerValueUp.GetOr(0)
  }

  /** The two numbers one edge writes are int32 values; the other edge's value is not read. */
  predicate EdgeNumbersInInt32(s: Settings, e: Edge) {
    IsInt32(IndexOrZero(s)) && IsInt32(EdgeValue(s, e))
  }

  /** The datagram body: index at offset 0, edge value at offset 4. */
  function Payload(s: Settings, e: Edge): (r: seq<Byte>)
    requires EdgeNumbersInInt32(s, e)
    ensures |r| == PayloadSize
  {
    EncodeInt32(IndexOrZero(s)) + EncodeInt32(EdgeValue(s, e))
  }

  /** How a receiver reads an 8-byte body. */
  function DecodePayload(p: seq<Byte>): Datagram
    requires |p| == PayloadSize
  {
    Datagram(DecodeInt32(p[IndexOffset..ValueOffset]), DecodeInt32(p[ValueOffset..]))
  }

  // ---------------------------------------------------------------------------
  // Building the datagram in a buffer

  /** `buf.writeInt32LE(value, offset)`: four byte stores, least significant byte first. */
  method WriteInt32LE(buf: array<Byte>, value: int, offset: nat)
    requires IsInt32(value)
    requires offset + 4 <= buf.Length
    modifies buf
    ensures buf[..] == old(buf[..])[..offset] + EncodeInt32(value) + old(buf[..])[offset + 4..]
  {
    EncodeInt32Bytes(value);
    var u := ToUnsigned32(value);
    buf[offset] := u % 256;
    u := u / 256;
    buf[offset + 1] := u % 256;
    u := u / 256;
    buf[offset + 2] := u % 256;
    u := u / 256;
    buf[offset + 3] := u % 256;
  }

  /** A fresh zero-filled 8-byte buffer with the index and the edge value written into it. */
  method BuildPayload(s: Settings, e: Edge) returns (message: array<Byte>)
    requires EdgeNumbersInInt32(s, e)
    ensures fresh(message)
    ensures message[..] == Payload(s, e)
  {
    message := new Byte[PayloadSize](_ => 0);
    WriteInt32LE(message, IndexOrZero(s), IndexOffset);
    WriteInt32LE(message, EdgeValue(s, e), ValueOffset);
  }

  /** The key was pressed: the new title, and the datagram with where it is sent. */
  method OnKeyDown(s: Settings) returns (title: string, message: array<Byte>, to: Endpoint)
    requires EdgeNumbersInInt32(s, KeyDown)
    ensures title == Title(s)
    ensures fresh(message) && message[..] == Payload(s, KeyDown)
    ensures to == Destination(s)
  {
    title := Title(s);
    message := BuildPayload(s, KeyDown);
    to := Destination(s);
  }

  /** The key was released: the new title, and the datagram with where it is sent. */
  method OnKeyUp(s: Settings) returns (title: string, message: array<Byte>, to: Endpoint)
    requires EdgeNumbersInInt32(s, KeyUp)
    ensures title == Title(s)
    ensures fresh(message) && message[..] == Payload(s, KeyUp)
    ensures to == Destination(s)
  {
    title := Title(s);
    message := BuildPayload(s, KeyUp);
    to := Destination(s);
  }

  // ---------------------------------------------------------------------------
  // Properties of the datagram

  /** Round trip: a receiver reads back exactly the index and the edge value, 0 for absent fields. */
  lemma PayloadRoundTrip(s: Settings, e: Edge)
    requires EdgeNumbersInInt32(s, e)
    ensures DecodePayload(Payload(s, e)) == Datagram(IndexOrZero(s), EdgeValue(s, e))
  {
    var p := Payload(s, e);
    assert p[IndexOffset..ValueOffset] == EncodeInt32(IndexOrZero(s));
    assert p[ValueOffset..] == EncodeInt32(EdgeValue(s, e));
    DecodeEncodeInt32(IndexOrZero(s));
    DecodeEncodeInt32(EdgeValue(s, e));
  }

  /** Two settings give the same datagram exactly when they agree on the index and the edge value. */
  lemma PayloadDeterminedByNumbers(s: Settings, t: Settings, e: Edge)
    requires EdgeNumbersInInt32(s, e) && EdgeNumbersInInt32(t, e)
    ensures Payload(s, e) == Payload(t, e) <==>
            IndexOrZero(s) == IndexOrZero(t) && EdgeValue(s, e) == EdgeValue(t, e)
  {
    if Payload(s, e) == Payload(t, e) {
      PayloadRoundTrip(s, e);
      PayloadRoundTrip(t, e);
    }
  }

  /** The flag and the destination fields never change the bytes. */
  lemma PayloadIgnoresDisplayFields(s: Settings, e: Edge, flag: Option<bool>, address: Option<string>, port: Option<string>)
    requires EdgeNumbersInInt32(s, e)
    ensures Payload(s.(useIntegerIndex := flag, ipAddress := address, ipPort := port), e) == Payload(s, e)
  {
  }

  /** An absent index is four zero bytes at offset 0; an absent edge value is four zero bytes at offset 4. */
  lemma AbsentNumbersEncodeZero(s: Settings, e: Edge)
    requires EdgeNumbersInInt32(s, e)
    ensures s.integerIndex.None? ==> Payload(s, e)[..4] == [0, 0, 0, 0]
    ensures (e == KeyDown ==> s.integerValueDown.None?) && (e == KeyUp ==> s.integerValueUp.None?) ==>
            Payload(s, e)[4..] == [0, 0, 0, 0]
  {
    EncodeInt32Examples();
  }

  /** Press and release share the index bytes and differ exactly when the two edge values differ. */
  lemma KeyDownKeyUpShareIndex(s: Settings)
    requires NumbersInInt32(s)
    ensures Payload(s, KeyDown)[..4] == Payload(s, KeyUp)[..4]
    ensures Payload(s, KeyDown) == Payload(s, KeyUp) <==>
            s.integerValueDown.GetOr(0) == s.integerValueUp.GetOr(0)
  {
    assert Payload(s, KeyDown)[..4] == EncodeInt32(IndexOrZero(s));
    assert Payload(s, KeyUp)[..4] == EncodeInt32(IndexOrZero(s));
    if Payload(s, KeyDown) == Payload(s, KeyUp) {
      PayloadRoundTrip(s, KeyDown);
      PayloadRoundTrip(s, KeyUp);
    }
  }

  /** Byte 3 carries the index's sign and byte 7 the edge value's. */
  lemma PayloadSignBytes(s: Settings, e: Edge)
    requires EdgeNumbersInInt32(s, e)
    ensures Payload(s, e)[3] >= 128 <==> IndexOrZero(s) < 0
    ensures Payload(s, e)[7] >= 128 <==> EdgeValue(s, e) < 0
  {
    EncodeInt32Sign(IndexOrZero(s));
    EncodeInt32Sign(EdgeValue(s, e));
  }

  /** Every 8-byte body is what some settings send, so the encoder loses nothing a receiver could expect. */
  lemma EveryBodyIsSent(p: seq<Byte>, e: Edge)
    requires |p| == PayloadSize
    ensures exists s :: NumbersInInt32(s) && Payload(s, e) == p
  {
    var d := DecodePayload(p);
    var s := Settings(Some(d.index), Some(d.value), Some(d.value), None, None, None);
    EncodeDecodeInt32(p[..4]);
    EncodeDecodeInt32(p[4..]);
    assert Payload(s, e) == p[..4] + p[4..];
  }

  // ---------------------------------------------------------------------------
  // The title

  /** The index line is shown when `useIntegerIndex` is truthy. */
  predicate ShowsIndex(s: Settings) {
    s.useIntegerIndex == Some(true)
  }

  /** The text `refreshTitle` passes to `setTitle`. */
  function Title(s: Settings): (t: string)
    ensures |t| > 0 && (t[0] == 'I' <==> ShowsIndex(s))
  {
    var down := "D " + IntToDecimal(s.integerValueDown.GetOr(0)) + "\n";
    var up := "R " + IntToDecimal(s.integerValueUp.GetOr(0)) + "\n";
    var address := "IP " + s.ipAddress.GetOr("") + "\n";
    var port := "P " + s.ipPort.GetOr("");
    if ShowsIndex(s) then
      "I " + IntToDecimal(s.integerIndex.GetOr(0)) + "\n" + down + up + address + port
    else
      down + up + address + port
  }

  /** With the flag truthy the title is the index line followed by the title shown without the flag. */
  lemma TitleIndexLine(s: Settings)
    ensures ShowsIndex(s) ==>
            Title(s) == "I " + IntToDecimal(s.integerIndex.GetOr(0)) + "\n" + Title(s.(useIntegerIndex := None))
    ensures !ShowsIndex(s) ==> Title(s) == Title(s.(useIntegerIndex := None))
  {
  }

  /** The lines of the title, each without its newline. */
  function TitleLines(s: Settings): seq<string> {
    (if ShowsIndex(s) then ["I " + IntToDecimal(s.integerIndex.GetOr(0))] else []) +
    [ "D " + IntToDecimal(s.integerValueDown.GetOr(0)),
      "R " + IntToDecimal(s.integerValueUp.GetOr(0)),
      "IP " + s.ipAddress.GetOr(""),
      "P " + s.ipPort.GetOr("") ]
  }

  lemma JoinFour(a: string, b: string, c: string, d: string)
    ensures Join([a, b, c, d]) == a + "\n" + b + "\n" + c + "\n" + d
  {
    assert [a, b, c, d][1..] == [b, c, d];
    assert [b, c, d][1..] == [c, d];
    assert [c, d][1..] == [d];
    assert Join([d]) == d;
    assert Join([c, d]) == c + "\n" + d;
    assert Join([b, c, d]) == b + "\n" + (c + "\n" + d);
  }

  /** The title is its lines joined by newlines. */
  lemma TitleIsJoinedLines(s: Settings)
    ensures Title(s) == Join(TitleLines(s))
  {
    var i := "I " + IntToDecimal(s.integerIndex.GetOr(0));
    var d := "D " + IntToDecimal(s.integerValueDown.GetOr(0));
    var r := "R " + IntToDecimal(s.integerValueUp.GetOr(0));
    var ip := "IP " + s.ipAddress.GetOr("");
    var p := "P " + s.ipPort.GetOr("");
    var tail := [d, r, ip, p];
    JoinFour(d, r, ip, p);
    if ShowsIndex(s) {
      assert TitleLines(s) == [i] + tail;
      assert ([i] + tail)[1..] == tail;
      assert Join([i] + tail) == i + "\n" + Join(tail);
      assert Title(s) == i + "\n" + (d + "\n" + r + "\n" + ip + "\n" + p);
    } else {
      assert TitleLines(s) == tail;
      assert Title(s) == d + "\n" + r + "\n" + ip + "\n" + p;
    }
  }

  lemma TitleLinesHaveNoNewline(s: Settings)
    requires NoNewline(s.ipAddress.GetOr("")) && NoNewline(s.ipPort.GetOr(""))
    ensures forall i :: 0 <= i < |TitleLines(s)| ==> NoNewline(TitleLines(s)[i])
  {
    var lines := TitleLines(s);
    forall i | 0 <= i < |lines|
      ensures NoNewline(lines[i])
    {
      var k := if ShowsIndex(s) then 1 else 0;
      if i == k + 2 {
        assert lines[i] == "IP " + s.ipAddress.GetOr("");
      } else if i == k + 3 {
        assert lines[i] == "P " + s.ipPort.GetOr("");
      }
    }
  }

  /** Split at its newlines, the title gives back its lines, 5 with the flag truthy and 4 otherwise. */
  lemma TitleSplitsIntoLines(s: Settings)
    requires NoNewline(s.ipAddress.GetOr("")) && NoNewline(s.ipPort.GetOr(""))
    ensures Split(Title(s)) == TitleLines(s)
    ensures |Split(Title(s))| == if ShowsIndex(s) then 5 else 4
  {
    TitleIsJoinedLines(s);
    TitleLinesHaveNoNewline(s);
    SplitJoin(TitleLines(s));
  }

  /**
   * Reading the title back: it has 5 lines with the flag truthy and 4 otherwise; the
   * number lines read back as the numbers, 0 where absent; the address and port lines
   * show the fields, empty where absent (provided those fields hold no newline).
   */
  lemma TitleReadsBack(s: Settings)
    requires NoNewline(s.ipAddress.GetOr("")) && NoNewline(s.ipPort.GetOr(""))
    ensures var lines := Split(Title(s));
            var k := if ShowsIndex(s) then 1 else 0;
            |lines| == 4 + k &&
            (ShowsIndex(s) ==>
               |lines[0]| > 2 && lines[0][..2] == "I " && ParseDecimal(lines[0][2..]) == Some(s.integerIndex.GetOr(0))) &&
            |lines[k]| > 2 && lines[k][..2] == "D " && ParseDecimal(lines[k][2..]) == Some(s.integerValueDown.GetOr(0)) &&
            |lines[k + 1]| > 2 && lines[k + 1][..2] == "R " &&
            ParseDecimal(lines[k + 1][2..]) == Some(s.integerValueUp.GetOr(0)) &&
            lines[k + 2] == "IP " + s.ipAddress.GetOr("") &&
            lines[k + 3] == "P " + s.ipPort.GetOr("")
  {
    TitleSplitsIntoLines(s);
    var lines := TitleLines(s);
    var k := if ShowsIndex(s) then 1 else 0;
    IntToDecimalRoundTrip(s.integerValueDown.GetOr(0));
    IntToDecimalRoundTrip(s.integerValueUp.GetOr(0));
    assert lines[k][2..] == IntToDecimal(s.integerValueDown.GetOr(0));
    assert lines[k + 1][2..] == IntToDecimal(s.integerValueUp.GetOr(0));
    if ShowsIndex(s) {
      IntToDecimalRoundTrip(s.integerIndex.GetOr(0));
      assert lines[0][2..] == IntToDecimal(s.integerIndex.GetOr(0));
    }
  }

  // ---------------------------------------------------------------------------
  // The destination

  /** Address and port text for the send, defaulted to 127.0.0.1 and "3615" only when the field is absent. */
  function Destination(s: Settings): (d: Endpoint)
    ensures d.address == "" <==> s.ipAddress == Some("")
    ensures d.port == "" <==> s.ipPort == Some("")
  {
    Endpoint(s.ipAddress.GetOr(DefaultAddress), s.ipPort.GetOr(DefaultPort))
  }

  /** The port number, for port text that is an optional minus sign and digits; None otherwise. */
  function DestinationPort(s: Settings): (r: Option<int>)
    ensures s.ipPort.None? ==> r == Some(3615)
    ensures r.Some? ==> Destination(s).port != ""
  {
    assert NatToDecimal(3615) == DefaultPort;
    IntToDecimalRoundTrip(3615);
    ParseDecimal(Destination(s).port)
  }

  /** A present field is used as it is, even when empty; only an absent one takes the default. */
  lemma DestinationDefaultsOnlyWhenAbsent(s: Settings)
    ensures s.ipAddress.None? ==> Destination(s).address == "127.0.0.1"
    ensures s.ipAddress.Some? ==> Destination(s).address == s.ipAddress.value
    ensures s.ipPort.None? ==> Destination(s).port == "3615"
    ensures s.ipPort.Some? ==> Destination(s).port == s.ipPort.value
  {
  }

  /**
   * The port number sent to: 3615 when the field is absent, n when it holds the decimal
   * text of n, and no number when it is present but empty.
   */
  lemma DestinationPortNumber(s: Settings, n: int)
    ensures s.ipPort.None? ==> DestinationPort(s) == Some(3615)
    ensures s.ipPort == Some(IntToDecimal(n)) ==> DestinationPort(s) == Some(n)
    ensures s.ipPort == Some("") ==> DestinationPort(s) == None
  {
    if s.ipPort.None? {
      assert NatToDecimal(3615) == DefaultPort;
      IntToDecimalRoundTrip(3615);
    }
    IntToDecimalRoundTrip(n);
  }

  /**
   * The title shows the address the datagram goes to exactly when the address field is
   * present; an absent one is shown empty but sent to 127.0.0.1. Likewise for the port.
   */
  lemma TitleShowsDestinationIffPresent(s: Settings)
    requires NoNewline(s.ipAddress.GetOr("")) && NoNewline(s.ipPort.GetOr(""))
    ensures var lines := Split(Title(s));
            var k := if ShowsIndex(s) then 1 else 0;
            |lines| == 4 + k &&
            (lines[k + 2] == "IP " + Destination(s).address <==> s.ipAddress.Some?) &&
            (lines[k + 3] == "P " + Destination(s).port <==> s.ipPort.Some?)
  {
    TitleReadsBack(s);
    if s.ipAddress.None? {
      assert ("IP " + Destination(s).address)[3..] == DefaultAddress;
    }
    if s.ipPort.None? {
      assert ("P " + Destination(s).port)[2..] == DefaultPort;
    }
  }
}
