/** The example for a message of one block, "abc", with its intermediate values (FIPS 180-2 appendix A.1). */
module Sha1Example {
  import opened Sha1Transform
  import opened Sha1

  /** The block as words. */
  const M: seq<word> := [0x61626380, 0, 0, 0, 0, 0, 0, 0, 0, 0, 0, 0, 0, 0, 0, 0x18]

  lemma Schedule0()
    ensures W(M, 0) == 0x61626380 && W(M, 1) == 0 && W(M, 2) == 0 && W(M, 3) == 0 && W(M, 4) == 0
    ensures W(M, 5) == 0 && W(M, 6) == 0 && W(M, 7) == 0 && W(M, 8) == 0 && W(M, 9) == 0
  {
  }

  lemma Schedule16()
    ensures W(M, 16) == 0xC2C4C700 && W(M, 17) == 0x00000000 && W(M, 18) == 0x00000030 && W(M, 19) == 0x85898E01
    ensures W(M, 20) == 0x00000000 && W(M, 21) == 0x00000060 && W(M, 22) == 0x0B131C03 && W(M, 23) == 0x00000030
    ensures W(M, 24) == 0x85898EC1 && W(M, 25) == 0x16263806 && W(M, 26) == 0x00000000 && W(M, 27) == 0x00000180
    ensures W(M, 28) == 0x2C4C700C && W(M, 29) == 0x000000F0 && W(M, 30) == 0x93AFB507 && W(M, 31) == 0x5898E048
  {
  }

  lemma Schedule32()
    ensures W(M, 32) == 0x8E9A9202 && W(M, 33) == 0x00000600 && W(M, 34) == 0xB131C0F0 && W(M, 35) == 0x16263BC6
    ensures W(M, 36) == 0x4EBED41E && W(M, 37) == 0x626380A1 && W(M, 38) == 0x16263806 && W(M, 39) == 0x000018C0
    ensures W(M, 40) == 0xD2E138C4 && W(M, 41) == 0x00000F00 && W(M, 42) == 0x3AFB5079 && W(M, 43) == 0x898E04E5
    ensures W(M, 44) == 0xE2BA3C2B && W(M, 45) == 0x000060C0 && W(M, 46) == 0x053A37CD && W(M, 47) == 0x74458547
  {
    Schedule16();
  }

  lemma Schedule48()
    ensures W(M, 48) == 0xDA9415ED && W(M, 49) == 0x26380A16 && W(M, 50) == 0x626383A1 && W(M, 51) == 0x4EBF54DE
    ensures W(M, 52) == 0x3835B44B && W(M, 53) == 0x0000F600 && W(M, 54) == 0x1E84C7A3 && W(M, 55) == 0x98E04D98
    ensures W(M, 56) == 0x651D16A0 && W(M, 57) == 0x62658CA1 && W(M, 58) == 0x458544D6 && W(M, 59) == 0x44584CB7
    ensures W(M, 60) == 0x7BA06619 && W(M, 61) == 0x6380AEA2 && W(M, 62) == 0x0AE55269 && W(M, 63) == 0x627B49A1
  {
    Schedule32();
    Schedule16();
  }

  lemma Schedule64()
    ensures W(M, 64) == 0x7CD45C9D && W(M, 65) == 0x000F0000 && W(M, 66) == 0xFB50753A && W(M, 67) == 0xEC6765E8
    ensures W(M, 68) == 0xBA3C2BE2 && W(M, 69) == 0x0060C000 && W(M, 70) == 0x3A37CD05 && W(M, 71) == 0x458546F4
    ensures W(M, 72) == 0xB8599DD6 && W(M, 73) == 0x380A1A26 && W(M, 74) == 0x01E02203 && W(M, 75) == 0xE7CC3456
    ensures W(M, 76) == 0xE6E60B69 && W(M, 77) == 0x00F60A00 && W(M, 78) == 0x5795EF4F && W(M, 79) == 0x822E0879
  {
    Schedule48();
    Schedule32();
  }

  lemma Rounds5()
    ensures Rounds(IV, M, 5) == Regs(0xCFD499DE, 0xCDD8E11B, 0x284E43C2, 0x626414DB, 0xC045BF0C)
  {
    Schedule0();
    assert Rounds(IV, M, 1) == Regs(0x0116FC33, 0x67452301, 0x7BF36AE2, 0x98BADCFE, 0x10325476);
    assert Rounds(IV, M, 2) == Regs(0x8990536D, 0x0116FC33, 0x59D148C0, 0x7BF36AE2, 0x98BADCFE);
    assert Rounds(IV, M, 3) == Regs(0xA1390F08, 0x8990536D, 0xC045BF0C, 0x59D148C0, 0x7BF36AE2);
    assert Rounds(IV, M, 4) == Regs(0xCDD8E11B, 0xA1390F08, 0x626414DB, 0xC045BF0C, 0x59D148C0);
  }

  lemma Rounds10()
    ensures Rounds(IV, M, 10) == Regs(0x8351F929, 0x4B6AE328, 0x27A301F5, 0x664F8C30, 0x0FF1F290)
  {
    Schedule0();
    Rounds5();
    assert Rounds(IV, M, 6) == Regs(0x3FC7CA40, 0xCFD499DE, 0xF3763846, 0x284E43C2, 0x626414DB);
    assert Rounds(IV, M, 7) == Regs(0x993E30C1, 0x3FC7CA40, 0xB3F52677, 0xF3763846, 0x284E43C2);
    assert Rounds(IV, M, 8) == Regs(0x9E8C07D4, 0x993E30C1, 0x0FF1F290, 0xB3F52677, 0xF3763846);
    assert Rounds(IV, M, 9) == Regs(0x4B6AE328, 0x9E8C07D4, 0x664F8C30, 0x0FF1F290, 0xB3F52677);
  }

  lemma Rounds20()
    ensures Rounds(IV, M, 20) == Regs(0xFD9E1D7D, 0xDC64901D, 0x20AA99CA, 0xD3A49608, 0xC82F758B)
  {
    Rounds10();
    Schedule16();
    assert Rounds(IV, M, 11) == Regs(0xFBDA9E89, 0x8351F929, 0x12DAB8CA, 0x27A301F5, 0x664F8C30);
    assert Rounds(IV, M, 12) == Regs(0x63188FE4, 0xFBDA9E89, 0x60D47E4A, 0x12DAB8CA, 0x27A301F5);
    assert Rounds(IV, M, 13) == Regs(0x4607B664, 0x63188FE4, 0x7EF6A7A2, 0x60D47E4A, 0x12DAB8CA);
    assert Rounds(IV, M, 14) == Regs(0x9128F695, 0x4607B664, 0x18C623F9, 0x7EF6A7A2, 0x60D47E4A);
    assert Rounds(IV, M, 15) == Regs(0x196BEE77, 0x9128F695, 0x1181ED99, 0x18C623F9, 0x7EF6A7A2);
    assert Rounds(IV, M, 16) == Regs(0x20BDD62F, 0x196BEE77, 0x644A3DA5, 0x1181ED99, 0x18C623F9);
    assert Rounds(IV, M, 17) == Regs(0x4E925823, 0x20BDD62F, 0xC65AFB9D, 0x644A3DA5, 0x1181ED99);
    assert Rounds(IV, M, 18) == Regs(0x82AA6728, 0x4E925823, 0xC82F758B, 0xC65AFB9D, 0x644A3DA5);
    assert Rounds(IV, M, 19) == Regs(0xDC64901D, 0x82AA6728, 0xD3A49608, 0xC82F758B, 0xC65AFB9D);
  }

  lemma Rounds30()
    ensures Rounds(IV, M, 30) == Regs(0xC5FBAF5D, 0x8370B52E, 0xD2AA1365, 0x6F8D7EF5, 0x12104EE9)
  {
    Rounds20();
    Schedule16();
    assert Rounds(IV, M, 21) == Regs(0x1A37B0CA, 0xFD9E1D7D, 0x77192407, 0x20AA99CA, 0xD3A49608);
    assert Rounds(IV, M, 22) == Regs(0x33A23BFC, 0x1A37B0CA, 0x7F67875F, 0x77192407, 0x20AA99CA);
    assert Rounds(IV, M, 23) == Regs(0x21283486, 0x33A23BFC, 0x868DEC32, 0x7F67875F, 0x77192407);
    assert Rounds(IV, M, 24) == Regs(0xD541F12D, 0x21283486, 0x0CE88EFF, 0x868DEC32, 0x7F67875F);
    assert Rounds(IV, M, 25) == Regs(0xC7567DC6, 0xD541F12D, 0x884A0D21, 0x0CE88EFF, 0x868DEC32);
    assert Rounds(IV, M, 26) == Regs(0x48413BA4, 0xC7567DC6, 0x75507C4B, 0x884A0D21, 0x0CE88EFF);
    assert Rounds(IV, M, 27) == Regs(0xBE35FBD5, 0x48413BA4, 0xB1D59F71, 0x75507C4B, 0x884A0D21);
    assert Rounds(IV, M, 28) == Regs(0x4AA84D97, 0xBE35FBD5, 0x12104EE9, 0xB1D59F71, 0x75507C4B);
    assert Rounds(IV, M, 29) == Regs(0x8370B52E, 0x4AA84D97, 0x6F8D7EF5, 0x12104EE9, 0xB1D59F71);
  }

  lemma Rounds40()
    ensures Rounds(IV, M, 40) == Regs(0x32DE1CBA, 0x4C986405, 0xF718E5CF, 0x03D447F6, 0xF72EEC32)
  {
    Rounds30();
    Schedule16();
    Schedule32();
    assert Rounds(IV, M, 31) == Regs(0x1267B407, 0xC5FBAF5D, 0xA0DC2D4B, 0xD2AA1365, 0x6F8D7EF5);
    assert Rounds(IV, M, 32) == Regs(0x3B845D33, 0x1267B407, 0x717EEBD7, 0xA0DC2D4B, 0xD2AA1365);
    assert Rounds(IV, M, 33) == Regs(0x046FAA0A, 0x3B845D33, 0xC499ED01, 0x717EEBD7, 0xA0DC2D4B);
    assert Rounds(IV, M, 34) == Regs(0x2C0EBC11, 0x046FAA0A, 0xCEE1174C, 0xC499ED01, 0x717EEBD7);
    assert Rounds(IV, M, 35) == Regs(0x21796AD4, 0x2C0EBC11, 0x811BEA82, 0xCEE1174C, 0xC499ED01);
    assert Rounds(IV, M, 36) == Regs(0xDCBBB0CB, 0x21796AD4, 0x4B03AF04, 0x811BEA82, 0xCEE1174C);
    assert Rounds(IV, M, 37) == Regs(0x0F511FD8, 0xDCBBB0CB, 0x085E5AB5, 0x4B03AF04, 0x811BEA82);
    assert Rounds(IV, M, 38) == Regs(0xDC63973F, 0x0F511FD8, 0xF72EEC32, 0x085E5AB5, 0x4B03AF04);
    assert Rounds(IV, M, 39) == Regs(0x4C986405, 0xDC63973F, 0x03D447F6, 0xF72EEC32, 0x085E5AB5);
  }

  lemma Rounds50()
    ensures Rounds(IV, M, 50) == Regs(0x120731C5, 0xBAF39337, 0xAFAB40B2, 0x2806E11B, 0x8714787C)
  {
    Rounds40();
    Schedule32();
    Schedule48();
    assert Rounds(IV, M, 41) == Regs(0xFC87DEDF, 0x32DE1CBA, 0x53261901, 0xF718E5CF, 0x03D447F6);
    assert Rounds(IV, M, 42) == Regs(0x970A0D5C, 0xFC87DEDF, 0x8CB7872E, 0x53261901, 0xF718E5CF);
    assert Rounds(IV, M, 43) == Regs(0x7F193DC5, 0x970A0D5C, 0xFF21F7B7, 0x8CB7872E, 0x53261901);
    assert Rounds(IV, M, 44) == Regs(0xEE1B1AAF, 0x7F193DC5, 0x25C28357, 0xFF21F7B7, 0x8CB7872E);
    assert Rounds(IV, M, 45) == Regs(0x40F28E09, 0xEE1B1AAF, 0x5FC64F71, 0x25C28357, 0xFF21F7B7);
    assert Rounds(IV, M, 46) == Regs(0x1C51E1F2, 0x40F28E09, 0xFB86C6AB, 0x5FC64F71, 0x25C28357);
    assert Rounds(IV, M, 47) == Regs(0xA01B846C, 0x1C51E1F2, 0x503CA382, 0xFB86C6AB, 0x5FC64F71);
    assert Rounds(IV, M, 48) == Regs(0xBEAD02CA, 0xA01B846C, 0x8714787C, 0x503CA382, 0xFB86C6AB);
    assert Rounds(IV, M, 49) == Regs(0xBAF39337, 0xBEAD02CA, 0x2806E11B, 0x8714787C, 0x503CA382);
  }

  lemma Rounds60()
    ensures Rounds(IV, M, 60) == Regs(0x3F52DE5A, 0x09D785FD, 0x3498BFD4, 0xF211824F, 0xD79915AB)
  {
    Rounds50();
    Schedule48();
    assert Rounds(IV, M, 51) == Regs(0x641DB2CE, 0x120731C5, 0xEEBCE4CD, 0xAFAB40B2, 0x2806E11B);
    assert Rounds(IV, M, 52) == Regs(0x3847AD66, 0x641DB2CE, 0x4481CC71, 0xEEBCE4CD, 0xAFAB40B2);
    assert Rounds(IV, M, 53) == Regs(0xE490436D, 0x3847AD66, 0x99076CB3, 0x4481CC71, 0xEEBCE4CD);
    assert Rounds(IV, M, 54) == Regs(0x27E9F1D8, 0xE490436D, 0x8E11EB59, 0x99076CB3, 0x4481CC71);
    assert Rounds(IV, M, 55) == Regs(0x7B71F76D, 0x27E9F1D8, 0x792410DB, 0x8E11EB59, 0x99076CB3);
    assert Rounds(IV, M, 56) == Regs(0x5E6456AF, 0x7B71F76D, 0x09FA7C76, 0x792410DB, 0x8E11EB59);
    assert Rounds(IV, M, 57) == Regs(0xC846093F, 0x5E6456AF, 0x5EDC7DDB, 0x09FA7C76, 0x792410DB);
    assert Rounds(IV, M, 58) == Regs(0xD262FF50, 0xC846093F, 0xD79915AB, 0x5EDC7DDB, 0x09FA7C76);
    assert Rounds(IV, M, 59) == Regs(0x09D785FD, 0xD262FF50, 0xF211824F, 0xD79915AB, 0x5EDC7DDB);
  }

  lemma Rounds70()
    ensures Rounds(IV, M, 70) == Regs(0x3F2588C2, 0x497093C0, 0xDE37534A, 0x030F7CAD, 0x4405957E)
  {
    Rounds60();
    Schedule48();
    Schedule64();
    assert Rounds(IV, M, 61) == Regs(0xD756C147, 0x3F52DE5A, 0x4275E17F, 0x3498BFD4, 0xF211824F);
    assert Rounds(IV, M, 62) == Regs(0x548C9CB2, 0xD756C147, 0x8FD4B796, 0x4275E17F, 0x3498BFD4);
    assert Rounds(IV, M, 63) == Regs(0xB66C020B, 0x548C9CB2, 0xF5D5B051, 0x8FD4B796, 0x4275E17F);
    assert Rounds(IV, M, 64) == Regs(0x6B61C9E1, 0xB66C020B, 0x9523272C, 0xF5D5B051, 0x8FD4B796);
    assert Rounds(IV, M, 65) == Regs(0x19DFA7AC, 0x6B61C9E1, 0xED9B0082, 0x9523272C, 0xF5D5B051);
    assert Rounds(IV, M, 66) == Regs(0x101655F9, 0x19DFA7AC, 0x5AD87278, 0xED9B0082, 0x9523272C);
    assert Rounds(IV, M, 67) == Regs(0x0C3DF2B4, 0x101655F9, 0x0677E9EB, 0x5AD87278, 0xED9B0082);
    assert Rounds(IV, M, 68) == Regs(0x78DD4D2B, 0x0C3DF2B4, 0x4405957E, 0x0677E9EB, 0x5AD87278);
    assert Rounds(IV, M, 69) == Regs(0x497093C0, 0x78DD4D2B, 0x030F7CAD, 0x4405957E, 0x0677E9EB);
  }

  lemma Rounds80()
    ensures Rounds(IV, M, 80) == Regs(0x42541B35, 0x5738D5E1, 0x21834873, 0x681E6DF6, 0xD8FDF6AD)
  {
    Rounds70();
    Schedule64();
    assert Rounds(IV, M, 71) == Regs(0xC199F8C7, 0x3F2588C2, 0x125C24F0, 0xDE37534A, 0x030F7CAD);
    assert Rounds(IV, M, 72) == Regs(0x39859DE7, 0xC199F8C7, 0x8FC96230, 0x125C24F0, 0xDE37534A);
    assert Rounds(IV, M, 73) == Regs(0xEDB42DE4, 0x39859DE7, 0xF0667E31, 0x8FC96230, 0x125C24F0);
    assert Rounds(IV, M, 74) == Regs(0x11793F6F, 0xEDB42DE4, 0xCE616779, 0xF0667E31, 0x8FC96230);
    assert Rounds(IV, M, 75) == Regs(0x5EE76897, 0x11793F6F, 0x3B6D0B79, 0xCE616779, 0xF0667E31);
    assert Rounds(IV, M, 76) == Regs(0x63F7DAB7, 0x5EE76897, 0xC45E4FDB, 0x3B6D0B79, 0xCE616779);
    assert Rounds(IV, M, 77) == Regs(0xA079B7D9, 0x63F7DAB7, 0xD7B9DA25, 0xC45E4FDB, 0x3B6D0B79);
    assert Rounds(IV, M, 78) == Regs(0x860D21CC, 0xA079B7D9, 0xD8FDF6AD, 0xD7B9DA25, 0xC45E4FDB);
    assert Rounds(IV, M, 79) == Regs(0x5738D5E1, 0x860D21CC, 0x681E6DF6, 0xD8FDF6AD, 0xD7B9DA25);
  }

  lemma PaddedBytes(msg: seq<bv8>)
    requires |msg| == 3
    ensures |Padded(msg)| == 64 && Padded(msg)[..4] == msg + [0x80] && Padded(msg)[63] == 24
    ensures forall k :: 4 <= k < 63 ==> Padded(msg)[k] == 0
  {
    ZerosBehindThree(|msg|);
    PaddedIs(msg, 52, 8 * |msg|);
    LengthBytes(8 * |msg|);
    Layout(msg + [0x80], [0, 0, 0, 0, 0, 0, 0, 24]);
  }

  lemma ZerosBehindThree(n: nat)
    requires n == 3
    ensures ZeroCount(n) == 52
  {
  }

  lemma PaddedIs(msg: seq<bv8>, zeros: nat, bits: nat)
    requires ZeroCount(|msg|) == zeros && 8 * |msg| == bits < TWO64
    ensures Padded(msg) == PadPrefix(msg, zeros) + Bytes64(bits)
  {
    Remainder(8 * |msg|, 0, bits);
    assert 8 * |msg| % TWO64 == bits;
  }

  lemma Octet24(n: nat)
    requires n == 24
    ensures Octet(n) == 24
  {
    var n1 := n / 2;
    var n2 := n1 / 2;
    var n3 := n2 / 2;
    var n4 := n3 / 2;
    assert Octet(n4) == 1;
    assert Octet(n3) == 3;
    assert Octet(n2) == 6;
    assert Octet(n1) == 12;
  }

  lemma LengthBytes(n: nat)
    requires n == 24
    ensures Bytes64(n) == [0, 0, 0, 0, 0, 0, 0, 24]
  {
    assert n / 0x1_00_0000_0000_0000 == 0 && n / 0x1_0000_0000_0000 == 0 && n / 0x1_00_0000_0000 == 0;
    assert n / 0x1_0000_0000 == 0 && n / 0x1_00_0000 == 0 && n / 0x1_0000 == 0 && n / 0x100 == 0;
    Octet24(n % 256);
  }

  lemma Layout(head: seq<bv8>, tail: seq<bv8>)
    requires |head| == 4 && tail == [0, 0, 0, 0, 0, 0, 0, 24]
    ensures var p := head + Zeros(52) + tail;
            |p| == 64 && p[..4] == head && p[63] == 24 && forall k :: 4 <= k < 63 ==> p[k] == 0
  {
  }

  lemma PaddedWords(p: seq<bv8>)
    requires |p| == 64 && p[..4] == [0x61, 0x62, 0x63, 0x80] && p[63] == 24 && forall k :: 4 <= k < 63 ==> p[k] == 0
    ensures Words(p) == M
  {
    assert p[0] == p[..4][0] && p[1] == p[..4][1] && p[2] == p[..4][2] && p[3] == p[..4][3];
    assert BigEndian(0x61, 0x62, 0x63, 0x80) == 0x61626380 && BigEndian(0, 0, 0, 24) == 0x18 && BigEndian(0, 0, 0, 0) == 0;
    forall i | 0 <= i < 16 ensures Words(p)[i] == M[i] {
    }
  }

  lemma OneBlock(p: seq<bv8>)
    requires |p| == 64
    ensures HashBlocks(IV, p) == Sum(IV, Rounds(IV, Words(p), 80))
  {
    assert p[..64] == p && p[64..] == [];
  }

  lemma LastSum()
    ensures Sum(IV, Regs(0x42541B35, 0x5738D5E1, 0x21834873, 0x681E6DF6, 0xD8FDF6AD)) == Regs(0xA9993E36, 0x4706816A, 0xBA3E2571, 0x7850C26C, 0x9CD0D89D)
  {
  }

  lemma AsBytes()
    ensures DigestOf(Regs(0xA9993E36, 0x4706816A, 0xBA3E2571, 0x7850C26C, 0x9CD0D89D))
         == [0xA9, 0x99, 0x3E, 0x36, 0x47, 0x06, 0x81, 0x6A, 0xBA, 0x3E,
             0x25, 0x71, 0x78, 0x50, 0xC2, 0x6C, 0x9C, 0xD0, 0xD8, 0x9D]
  {
    assert WordBytes(0xA9993E36) == [0xA9, 0x99, 0x3E, 0x36];
    assert WordBytes(0x4706816A) == [0x47, 0x06, 0x81, 0x6A];
    assert WordBytes(0xBA3E2571) == [0xBA, 0x3E, 0x25, 0x71];
    assert WordBytes(0x7850C26C) == [0x78, 0x50, 0xC2, 0x6C];
    assert WordBytes(0x9CD0D89D) == [0x9C, 0xD0, 0xD8, 0x9D];
  }

  /** The digest of "abc". */
  lemma DigestOfAbc(msg: seq<bv8>)
    requires msg == [0x61, 0x62, 0x63]
    ensures Digest(msg) == [0xA9, 0x99, 0x3E, 0x36, 0x47, 0x06, 0x81, 0x6A, 0xBA, 0x3E,
                            0x25, 0x71, 0x78, 0x50, 0xC2, 0x6C, 0x9C, 0xD0, 0xD8, 0x9D]
  {
    PaddedBytes(msg);
    assert msg + [0x80] == [0x61, 0x62, 0x63, 0x80];
    PaddedWords(Padded(msg));
    OneBlock(Padded(msg));
    Rounds80();
    LastSum();
    AsBytes();
  }
}
