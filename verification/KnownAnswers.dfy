/** Published answers: the check values of the two checksums, the checksum of "123456789", and the examples of
    RFC 4648. */
module KnownAnswers {
  import Base64
  import Bits
  import opened Crc
  import opened CrcCode

  lemma TableStep1()
    ensures TableStep(0xffffffff, 0x31) == 0x9efbcf93
  {
  }

  lemma TableStep2()
    ensures TableStep(0x9efbcf93, 0x32) == 0x3fec5e6a
  {
  }

  lemma TableStep3()
    ensures TableStep(0x3fec5e6a, 0x33) == 0xd952f164
  {
  }

  lemma TableStep4()
    ensures TableStep(0xd952f164, 0x34) == 0xa695c4aa
  {
  }

  lemma TableStep5()
    ensures TableStep(0xa695c4aa, 0x35) == 0xbd9ab747
  {
  }

  lemma TableStep6()
    ensures TableStep(0xbd9ab747, 0x36) == 0xd8f06c8f
  {
  }

  lemma TableStep7()
    ensures TableStep(0xd8f06c8f, 0x37) == 0x0d8a14c4
  {
  }

  lemma TableStep8()
    ensures TableStep(0x0d8a14c4, 0x38) == 0x49e3c2fb
  {
  }

  lemma TableStep9()
    ensures TableStep(0x49e3c2fb, 0x39) == 0x0376e6e7
  {
  }

  lemma OneMore(m: seq<bv8>, n: nat)
    requires n < |m|
    ensures FastFrom(START, m[..n + 1]) == TableStep(FastFrom(START, m[..n]), m[n])
  {
    hide TableStep;
    assert m[..n + 1][..n] == m[..n];
  }

  lemma NothingFed(m: seq<bv8>)
    ensures FastFrom(START, m[..0]) == 0xffffffff && Checksum8(m[..0]) == 0
  {
  }

  /** The check value of CRC-32/MPEG-2. */
  lemma CheckValue32(m: seq<bv8>)
    requires m == [0x31, 0x32, 0x33, 0x34, 0x35, 0x36, 0x37, 0x38, 0x39]
    ensures Checksum(m) == 0x0376e6e7
  {
    hide FastFrom, TableStep, Checksum;
    NothingFed(m);
    OneMore(m, 0);
    TableStep1();
    OneMore(m, 1);
    TableStep2();
    OneMore(m, 2);
    TableStep3();
    OneMore(m, 3);
    TableStep4();
    OneMore(m, 4);
    TableStep5();
    OneMore(m, 5);
    TableStep6();
    OneMore(m, 6);
    TableStep7();
    OneMore(m, 7);
    TableStep8();
    OneMore(m, 8);
    TableStep9();
    assert m[..9] == m;
    FastIsChecksum(m);
  }

  lemma Division1()
    ensures Eight(Xor8(0x31, 0x00)) == 0x97
  {
  }

  lemma Division2()
    ensures Eight(Xor8(0x32, 0x97)) == 0x72
  {
  }

  lemma Division3()
    ensures Eight(Xor8(0x33, 0x72)) == 0xc0
  {
  }

  lemma Division4()
    ensures Eight(Xor8(0x34, 0xc0)) == 0xc2
  {
  }

  lemma Division5()
    ensures Eight(Xor8(0x35, 0xc2)) == 0xcb
  {
  }

  lemma Division6()
    ensures Eight(Xor8(0x36, 0xcb)) == 0xfd
  {
  }

  lemma Division7()
    ensures Eight(Xor8(0x37, 0xfd)) == 0x78
  {
  }

  lemma Division8()
    ensures Eight(Xor8(0x38, 0x78)) == 0xc7
  {
  }

  lemma Division9()
    ensures Eight(Xor8(0x39, 0xc7)) == 0xf4
  {
  }

  lemma OneMore8(m: seq<bv8>, n: nat)
    requires n < |m|
    ensures Checksum8(m[..n + 1]) == Slow8(Checksum8(m[..n]), m[n])
  {
    hide Slow8;
    assert m[..n + 1][..n] == m[..n];
  }

  /** The check value of the CRC-8. */
  lemma CheckValue8(m: seq<bv8>)
    requires m == [0x31, 0x32, 0x33, 0x34, 0x35, 0x36, 0x37, 0x38, 0x39]
    ensures Checksum8(m) == 0xf4
  {
    hide Checksum8, Slow8, FastFrom, Eight, Xor8;
    NothingFed(m);
    OneMore8(m, 0);
    Combine8(0x00, 0x31);
    Division1();
    OneMore8(m, 1);
    Combine8(0x97, 0x32);
    Division2();
    OneMore8(m, 2);
    Combine8(0x72, 0x33);
    Division3();
    OneMore8(m, 3);
    Combine8(0xc0, 0x34);
    Division4();
    OneMore8(m, 4);
    Combine8(0xc2, 0x35);
    Division5();
    OneMore8(m, 5);
    Combine8(0xcb, 0x36);
    Division6();
    OneMore8(m, 6);
    Combine8(0xfd, 0x37);
    Division7();
    OneMore8(m, 7);
    Combine8(0x78, 0x38);
    Division8();
    OneMore8(m, 8);
    Combine8(0xc7, 0x39);
    Division9();
    assert m[..9] == m;
  }

  /** Section 10 of RFC 4648: "f", "fo", "foo" ... */
  lemma Rfc4648Short()
    ensures Base64.Encode([102]) == [90, 103, 61, 61] && Base64.Encode([102, 111]) == [90, 109, 56, 61]
    ensures Base64.Encode([102, 111, 111]) == [90, 109, 57, 118] && Base64.Encode([98, 97, 114]) == [89, 109, 70, 121]
  {
    assert [102, 111, 111][3..] == [] && [98, 97, 114][3..] == [];
  }

  lemma EncodeMore(a: Bits.Byte, b: Bits.Byte, c: Bits.Byte, s: seq<Bits.Byte>)
    ensures Base64.Encode([a, b, c] + s) == Base64.Encode([a, b, c]) + Base64.Encode(s)
  {
    hide Base64.Symbol;
    assert ([a, b, c] + s)[3..] == s && [a, b, c][3..] == [];
  }

  /** ... and "foobar". */
  lemma Rfc4648()
    ensures Base64.Encode([102, 111, 111] + [98, 97, 114]) == [90, 109, 57, 118] + [89, 109, 70, 121]
  {
    hide Base64.Encode;
    EncodeMore(102, 111, 111, [98, 97, 114]);
    Rfc4648Short();
  }
}
