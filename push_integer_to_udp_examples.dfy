/** Worked examples of the datagram and the title for concrete settings. */
module PushIntegerToUdpExamples {
  import opened Wrappers
  import opened Int32LE
  import opened Decimal
  import opened PushIntegerToUdp

  /** Index 3 pressed with 5; index 0 released with -1 (two's complement, all ones). */
  lemma PayloadExamples()
    ensures Payload(Settings(Some(3), Some(5), None, None, None, None), KeyDown) == [3, 0, 0, 0, 5, 0, 0, 0]
    ensures Payload(Settings(Some(0), None, Some(-1), Some(true), None, None), KeyUp)
            == [0, 0, 0, 0, 0xFF, 0xFF, 0xFF, 0xFF]
  {
    EncodeInt32Examples();
    EncodeInt32Bytes(3);
  }

  /** A press whose "up" value lies outside int32 still sends: the press never reads it. */
  lemma PayloadExampleOtherEdgeUnread()
    ensures Payload(Settings(Some(0), Some(1), Some(Two32), None, None, None), KeyDown)
            == [0, 0, 0, 0, 1, 0, 0, 0]
  {
    EncodeInt32Examples();
    EncodeInt32Bytes(1);
  }

  /**
   * The flag on: index 7, values 1 and 2, address 10.0.0.5, port 9000. The settings are a
   * parameter fixed by the requires because stating Title of a literal directly is costly to prove.
   */
  lemma TitleExampleWithIndex(s: Settings)
    requires s == Settings(Some(7), Some(1), Some(2), Some(true), Some("10.0.0.5"), Some("9000"))
    ensures Title(s) == "I 7\nD 1\nR 2\nIP 10.0.0.5\nP 9000"
  {
    var i := "I " + IntToDecimal(s.integerIndex.GetOr(0));
    var d := "D " + IntToDecimal(s.integerValueDown.GetOr(0));
    var r := "R " + IntToDecimal(s.integerValueUp.GetOr(0));
    var ip := "IP " + s.ipAddress.GetOr("");
    var p := "P " + s.ipPort.GetOr("");
    assert Title(s) == i + "\n" + (d + "\n") + (r + "\n") + (ip + "\n") + p;
    assert IntToDecimal(7) == "7" && IntToDecimal(1) == "1" && IntToDecimal(2) == "2";
    assert i == "I 7" && d == "D 1" && r == "R 2" && ip == "IP 10.0.0.5" && p == "P 9000";
  }

  /** The same settings with the flag off: the index line is omitted (parameter as above). */
  lemma TitleExampleWithoutIndex(s: Settings)
    requires s == Settings(Some(7), Some(1), Some(2), Some(false), Some("10.0.0.5"), Some("9000"))
    ensures Title(s) == "D 1\nR 2\nIP 10.0.0.5\nP 9000"
  {
    var d := "D " + IntToDecimal(s.integerValueDown.GetOr(0));
    var r := "R " + IntToDecimal(s.integerValueUp.GetOr(0));
    var ip := "IP " + s.ipAddress.GetOr("");
    var p := "P " + s.ipPort.GetOr("");
    assert Title(s) == (d + "\n") + (r + "\n") + (ip + "\n") + p;
    assert IntToDecimal(1) == "1" && IntToDecimal(2) == "2";
    assert d == "D 1" && r == "R 2" && ip == "IP 10.0.0.5" && p == "P 9000";
  }

  /** Nothing set: zeros for the numbers, empty address and port. */
  lemma TitleExampleEmpty()
    ensures Title(Settings(None, None, None, None, None, None)) == "D 0\nR 0\nIP \nP "
  {
    assert IntToDecimal(0) == "0";
  }
}
