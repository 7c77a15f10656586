/** Checksums of some byte strings, among them the check value of CRC-16/CCITT-FALSE, and one frame in full. */
module CrcValues {
  import opened Bytes
  import opened Crc16
  import ControlFrames

  lemma FirstPass(data: bytes)
    ensures Divided(INIT, data, 0xFFFF, 0)
  {
    assert data[0..] == data;
  }

  lemma LastPass(data: bytes, r: bv16)
    requires Divided(INIT, data, r, |data|)
    ensures Checksum(data) == Value(r)
  {
    assert data[|data|..] == [];
  }

  lemma ValueOf(r: bv16, low: bv8, high: bv8)
    requires r & 0xFF == low as bv16 && r >> 8 == high as bv16
    ensures Value(r) == low as int + 256 * (high as int)
  {
    ValueIsInt(r);
  }

  /** Of nothing the checksum is the initial register. */
  lemma OfNothing()
    ensures Checksum([]) == 0xFFFF
  {
    hide Value, DivideBits, Bits, Divided;
    FirstPass([]);
    LastPass([], 0xFFFF);
    ValueOf(0xFFFF, 0xFF, 0xFF);
  }

  /** Of one zero byte. */
  lemma OfZero()
    ensures Checksum([0]) == 0xE1F0
  {
    hide Value, DivideBits, Bits, Divided;
    var data: bytes := [0];
    FirstPass(data);
    DividedNext(INIT, data, 0xFFFF, 0, 0x00, 0xFFFF, 0xFFF0, 0xFFF0, 0xE1F0);
    LastPass(data, 0xE1F0);
    ValueOf(0xE1F0, 0xF0, 0xE1);
  }

  lemma FiveDigits(data: bytes)
    requires |data| >= 5 && data[..5] == [0x31, 0x32, 0x33, 0x34, 0x35]
    ensures Divided(INIT, data, 0x4560, 5)
  {
    hide DivideBits, Bits, Divided;
    assert forall i :: 0 <= i < 5 ==> data[i] == data[..5][i];
    FirstPass(data);
    DividedNext(INIT, data, 0xFFFF, 0, 0x31, 0xFFCE, 0xFFC2, 0xDFC2, 0xC782);
    DividedNext(INIT, data, 0xC782, 1, 0x32, 0x82F5, 0x82FA, 0x22FA, 0x3DBA);
    DividedNext(INIT, data, 0x3DBA, 2, 0x33, 0xBA0E, 0xBA0E, 0x5A0E, 0x5BCE);
    DividedNext(INIT, data, 0x5BCE, 3, 0x34, 0xCE6F, 0xCE69, 0x5E69, 0x5349);
    DividedNext(INIT, data, 0x5349, 4, 0x35, 0x4966, 0x4960, 0x4960, 0x4560);
  }

  /** The check value: of the digits 1 to 9 in ASCII. */
  lemma OfDigits()
    ensures Checksum([0x31, 0x32, 0x33, 0x34, 0x35, 0x36, 0x37, 0x38, 0x39]) == 0x29B1
  {
    hide Value, DivideBits, Bits, Divided;
    var data: bytes := [0x31, 0x32, 0x33, 0x34, 0x35, 0x36, 0x37, 0x38, 0x39];
    FiveDigits(data);
    DividedNext(INIT, data, 0x4560, 5, 0x36, 0x6073, 0x6074, 0x2074, 0x2EF4);
    DividedNext(INIT, data, 0x2EF4, 6, 0x37, 0xF419, 0xF418, 0x7418, 0x7718);
    DividedNext(INIT, data, 0x7718, 7, 0x38, 0x184F, 0x184B, 0xA84B, 0xA12B);
    DividedNext(INIT, data, 0xA12B, 8, 0x39, 0x2B98, 0x2B91, 0x3B91, 0x29B1);
    LastPass(data, 0x29B1);
    ValueOf(0x29B1, 0xB1, 0x29);
  }

  /** Of the body of the first frame that a host sends. */
  lemma OfHello()
    ensures Checksum([1, 1, 0, 1, 0, 1]) == 0xC6F0
  {
    hide Value, DivideBits, Bits, Divided;
    var data: bytes := [1, 1, 0, 1, 0, 1];
    FirstPass(data);
    DividedNext(INIT, data, 0xFFFF, 0, 0x01, 0xFFFE, 0xFFF1, 0xEFF1, 0xF1D1);
    DividedNext(INIT, data, 0xF1D1, 1, 0x01, 0xD1F0, 0xD1FF, 0x21FF, 0x3E1F);
    DividedNext(INIT, data, 0x3E1F, 2, 0x00, 0x1F3E, 0x1F3D, 0xCF3D, 0xC89D);
    DividedNext(INIT, data, 0xC89D, 3, 0x01, 0x9DC9, 0x9DC5, 0xCDC5, 0xD565);
    DividedNext(INIT, data, 0xD565, 4, 0x00, 0x65D5, 0x65D8, 0xE5D8, 0xFED8);
    DividedNext(INIT, data, 0xFED8, 5, 0x01, 0xD8FF, 0xD8F0, 0xD8F0, 0xC6F0);
    LastPass(data, 0xC6F0);
    ValueOf(0xC6F0, 0xF0, 0xC6);
  }

  /** That frame, byte for byte. */
  lemma HelloFrame()
    ensures ControlFrames.EncodeFrame(Checksum, 1, 0, [1])
            == Some([0xA5, 0x5A, 0x01, 0x01, 0x00, 0x01, 0x00, 0x01, 0xF0, 0xC6])
  {
    hide Checksum;
    OfHello();
    assert LE16(0xC6F0) == [0xF0, 0xC6];
    var f := ControlFrames.Frame(1, 0, [1]);
    assert ControlFrames.Wire(Checksum, 1, f) == [0xA5, 0x5A] + [1, 1, 0, 1, 0, 1] + [0xF0, 0xC6] by {
      assert ControlFrames.Body(1, f) == [1, 1, 0, 1, 0, 1];
    }
    var w: bytes := [0xA5, 0x5A, 0x01, 0x01, 0x00, 0x01, 0x00, 0x01, 0xF0, 0xC6];
    assert [0xA5, 0x5A] + [1, 1, 0, 1, 0, 1] + [0xF0, 0xC6] == w;
  }
}
