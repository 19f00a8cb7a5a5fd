/**
A digest as text: the example "abc" of the standard, through the reader of expected digests.
*/
module PackageExamples {
  import opened Ascii
  import opened Sha256Spec
  import opened Sha256Vectors
  import opened PackageVerify

  lemma {:induction false} HexTextConcat(a: seq<Byte>, b: seq<Byte>)
    ensures HexText(a + b) == HexText(a) + HexText(b)
    decreases |b|
  {
    if b == [] {
      assert a + b == a && HexText(a) + "" == HexText(a);
    } else {
      var front, last := b[..|b| - 1], b[|b| - 1];
      HexTextConcat(a, front);
      assert (a + b)[..|a + b| - 1] == a + front && (a + b)[|a + b| - 1] == last;
      var d := [Digit(last >> 4), Digit(last & 15)];
      assert HexText(a) + HexText(front) + d == HexText(a) + (HexText(front) + d);
    }
  }

  lemma OneByte(b: Byte, hi: char, lo: char)
    requires Digit(b >> 4) == hi && Digit(b & 15) == lo
    ensures HexText([b]) == [hi, lo]
  {
    hide Digit;
    assert [b][..0] == [] && HexText([]) == "";
  }

  lemma Row(a: Byte, b: Byte, c: Byte, d: Byte, t: string)
    requires |t| == 8 && HexText([a]) == t[..2] && HexText([b]) == t[2..4]
    requires HexText([c]) == t[4..6] && HexText([d]) == t[6..]
    ensures HexText([a, b, c, d]) == t
  {
    hide HexText;
    HexTextConcat([a], [b]);
    HexTextConcat([a, b], [c]);
    HexTextConcat([a, b, c], [d]);
    assert [a] + [b] == [a, b] && [a, b] + [c] == [a, b, c] && [a, b, c] + [d] == [a, b, c, d];
    assert t == t[..2] + t[2..4] + t[4..6] + t[6..];
  }

  lemma Row0()
    ensures HexText([0xba, 0x78, 0x16, 0xbf]) == "ba7816bf"
  {
    hide HexText;
    OneByte(0xba, 'b', 'a');
    OneByte(0x78, '7', '8');
    OneByte(0x16, '1', '6');
    OneByte(0xbf, 'b', 'f');
    Row(0xba, 0x78, 0x16, 0xbf, "ba7816bf");
  }

  lemma Row1()
    ensures HexText([0x8f, 0x01, 0xcf, 0xea]) == "8f01cfea"
  {
    hide HexText;
    OneByte(0x8f, '8', 'f');
    OneByte(0x01, '0', '1');
    OneByte(0xcf, 'c', 'f');
    OneByte(0xea, 'e', 'a');
    Row(0x8f, 0x01, 0xcf, 0xea, "8f01cfea");
  }

  lemma Row2()
    ensures HexText([0x41, 0x41, 0x40, 0xde]) == "414140de"
  {
    hide HexText;
    OneByte(0x41, '4', '1');
    OneByte(0x41, '4', '1');
    OneByte(0x40, '4', '0');
    OneByte(0xde, 'd', 'e');
    Row(0x41, 0x41, 0x40, 0xde, "414140de");
  }

  lemma Row3()
    ensures HexText([0x5d, 0xae, 0x22, 0x23]) == "5dae2223"
  {
    hide HexText;
    OneByte(0x5d, '5', 'd');
    OneByte(0xae, 'a', 'e');
    OneByte(0x22, '2', '2');
    OneByte(0x23, '2', '3');
    Row(0x5d, 0xae, 0x22, 0x23, "5dae2223");
  }

  lemma Row4()
    ensures HexText([0xb0, 0x03, 0x61, 0xa3]) == "b00361a3"
  {
    hide HexText;
    OneByte(0xb0, 'b', '0');
    OneByte(0x03, '0', '3');
    OneByte(0x61, '6', '1');
    OneByte(0xa3, 'a', '3');
    Row(0xb0, 0x03, 0x61, 0xa3, "b00361a3");
  }

  lemma Row5()
    ensures HexText([0x96, 0x17, 0x7a, 0x9c]) == "96177a9c"
  {
    hide HexText;
    OneByte(0x96, '9', '6');
    OneByte(0x17, '1', '7');
    OneByte(0x7a, '7', 'a');
    OneByte(0x9c, '9', 'c');
    Row(0x96, 0x17, 0x7a, 0x9c, "96177a9c");
  }

  lemma Row6()
    ensures HexText([0xb4, 0x10, 0xff, 0x61]) == "b410ff61"
  {
    hide HexText;
    OneByte(0xb4, 'b', '4');
    OneByte(0x10, '1', '0');
    OneByte(0xff, 'f', 'f');
    OneByte(0x61, '6', '1');
    Row(0xb4, 0x10, 0xff, 0x61, "b410ff61");
  }

  lemma Row7()
    ensures HexText([0xf2, 0x00, 0x15, 0xad]) == "f20015ad"
  {
    hide HexText;
    OneByte(0xf2, 'f', '2');
    OneByte(0x00, '0', '0');
    OneByte(0x15, '1', '5');
    OneByte(0xad, 'a', 'd');
    Row(0xf2, 0x00, 0x15, 0xad, "f20015ad");
  }

  /** The text that `update_verify` accepts for a file holding "abc". */
  lemma TextOfAbc()
    ensures HexText(Sha256Spec.Sha256([0x61, 0x62, 0x63])) ==
            "ba7816bf" + "8f01cfea" + "414140de" + "5dae2223" + "b00361a3" + "96177a9c" + "b410ff61" + "f20015ad"
  {
    hide HexText, Sha256Spec.Sha256;
    DigestOfAbc();
    var r0: seq<Byte> := [0xba, 0x78, 0x16, 0xbf];
    var r1: seq<Byte> := [0x8f, 0x01, 0xcf, 0xea];
    var r2: seq<Byte> := [0x41, 0x41, 0x40, 0xde];
    var r3: seq<Byte> := [0x5d, 0xae, 0x22, 0x23];
    var r4: seq<Byte> := [0xb0, 0x03, 0x61, 0xa3];
    var r5: seq<Byte> := [0x96, 0x17, 0x7a, 0x9c];
    var r6: seq<Byte> := [0xb4, 0x10, 0xff, 0x61];
    var r7: seq<Byte> := [0xf2, 0x00, 0x15, 0xad];
    Row0();
    Row1();
    Row2();
    Row3();
    Row4();
    Row5();
    Row6();
    Row7();
    HexTextConcat(r0, r1);
    HexTextConcat(r0 + r1, r2);
    HexTextConcat(r0 + r1 + r2, r3);
    HexTextConcat(r0 + r1 + r2 + r3, r4);
    HexTextConcat(r0 + r1 + r2 + r3 + r4, r5);
    HexTextConcat(r0 + r1 + r2 + r3 + r4 + r5, r6);
    HexTextConcat(r0 + r1 + r2 + r3 + r4 + r5 + r6, r7);
  }
}
