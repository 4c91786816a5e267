/** The one-block example of FIPS 180-4: the digest of "abc", word by word and round by round. */
module ShaVector {
  import opened Bytes
  import opened Sha1

  predicate Block(m: Chunk) {
    hide W;
    && W(m, 0) == 0x61626380 && W(m, 1) == 0x00000000 && W(m, 2) == 0x00000000 && W(m, 3) == 0x00000000
    && W(m, 4) == 0x00000000 && W(m, 5) == 0x00000000 && W(m, 6) == 0x00000000 && W(m, 7) == 0x00000000
    && W(m, 8) == 0x00000000 && W(m, 9) == 0x00000000 && W(m, 10) == 0x00000000 && W(m, 11) == 0x00000000
    && W(m, 12) == 0x00000000 && W(m, 13) == 0x00000000 && W(m, 14) == 0x00000000 && W(m, 15) == 0x00000018
  }

  predicate Words1(m: Chunk) {
    hide W;
    && W(m, 0) == 0x61626380 && W(m, 1) == 0x00000000 && W(m, 2) == 0x00000000 && W(m, 3) == 0x00000000 && W(m, 4) == 0x00000000
    && W(m, 5) == 0x00000000 && W(m, 6) == 0x00000000 && W(m, 7) == 0x00000000 && W(m, 8) == 0x00000000 && W(m, 9) == 0x00000000
  }

  predicate Words2(m: Chunk) {
    hide W;
    && W(m, 10) == 0x00000000 && W(m, 11) == 0x00000000 && W(m, 12) == 0x00000000 && W(m, 13) == 0x00000000 && W(m, 14) == 0x00000000
    && W(m, 15) == 0x00000018 && W(m, 16) == 0xc2c4c700 && W(m, 17) == 0x00000000 && W(m, 18) == 0x00000030 && W(m, 19) == 0x85898e01
  }

  predicate Words3(m: Chunk) {
    hide W;
    && W(m, 20) == 0x00000000 && W(m, 21) == 0x00000060 && W(m, 22) == 0x0b131c03 && W(m, 23) == 0x00000030 && W(m, 24) == 0x85898ec1
    && W(m, 25) == 0x16263806 && W(m, 26) == 0x00000000 && W(m, 27) == 0x00000180 && W(m, 28) == 0x2c4c700c && W(m, 29) == 0x000000f0
  }

  predicate Words4(m: Chunk) {
    hide W;
    && W(m, 30) == 0x93afb507 && W(m, 31) == 0x5898e048 && W(m, 32) == 0x8e9a9202 && W(m, 33) == 0x00000600 && W(m, 34) == 0xb131c0f0
    && W(m, 35) == 0x16263bc6 && W(m, 36) == 0x4ebed41e && W(m, 37) == 0x626380a1 && W(m, 38) == 0x16263806 && W(m, 39) == 0x000018c0
  }

  predicate Words5(m: Chunk) {
    hide W;
    && W(m, 40) == 0xd2e138c4 && W(m, 41) == 0x00000f00 && W(m, 42) == 0x3afb5079 && W(m, 43) == 0x898e04e5 && W(m, 44) == 0xe2ba3c2b
    && W(m, 45) == 0x000060c0 && W(m, 46) == 0x053a37cd && W(m, 47) == 0x74458547 && W(m, 48) == 0xda9415ed && W(m, 49) == 0x26380a16
  }

  predicate Words6(m: Chunk) {
    hide W;
    && W(m, 50) == 0x626383a1 && W(m, 51) == 0x4ebf54de && W(m, 52) == 0x3835b44b && W(m, 53) == 0x0000f600 && W(m, 54) == 0x1e84c7a3
    && W(m, 55) == 0x98e04d98 && W(m, 56) == 0x651d16a0 && W(m, 57) == 0x62658ca1 && W(m, 58) == 0x458544d6 && W(m, 59) == 0x44584cb7
  }

  predicate Words7(m: Chunk) {
    hide W;
    && W(m, 60) == 0x7ba06619 && W(m, 61) == 0x6380aea2 && W(m, 62) == 0x0ae55269 && W(m, 63) == 0x627b49a1 && W(m, 64) == 0x7cd45c9d
    && W(m, 65) == 0x000f0000 && W(m, 66) == 0xfb50753a && W(m, 67) == 0xec6765e8 && W(m, 68) == 0xba3c2be2 && W(m, 69) == 0x0060c000
  }

  predicate Words8(m: Chunk) {
    hide W;
    && W(m, 70) == 0x3a37cd05 && W(m, 71) == 0x458546f4 && W(m, 72) == 0xb8599dd6 && W(m, 73) == 0x380a1a26 && W(m, 74) == 0x01e02203
    && W(m, 75) == 0xe7cc3456 && W(m, 76) == 0xe6e60b69 && W(m, 77) == 0x00f60a00 && W(m, 78) == 0x5795ef4f && W(m, 79) == 0x822e0879
  }

  lemma Schedule2(m: Chunk)
    requires Block(m)
    ensures Words1(m) && Words2(m)
  {
    hide WordAt;
    assert W(m, 16) == 0xc2c4c700 && W(m, 17) == 0x00000000 && W(m, 18) == 0x00000030 && W(m, 19) == 0x85898e01;
  }

  lemma Schedule3(m: Chunk)
    requires Words1(m) && Words2(m)
    ensures Words3(m)
  {
    hide WordAt;
    assert W(m, 20) == 0x00000000 && W(m, 21) == 0x00000060 && W(m, 22) == 0x0b131c03 && W(m, 23) == 0x00000030 && W(m, 24) == 0x85898ec1;
    assert W(m, 25) == 0x16263806 && W(m, 26) == 0x00000000 && W(m, 27) == 0x00000180 && W(m, 28) == 0x2c4c700c && W(m, 29) == 0x000000f0;
  }

  lemma Schedule4(m: Chunk)
    requires Words2(m) && Words3(m)
    ensures Words4(m)
  {
    hide WordAt;
    assert W(m, 30) == 0x93afb507 && W(m, 31) == 0x5898e048 && W(m, 32) == 0x8e9a9202 && W(m, 33) == 0x00000600 && W(m, 34) == 0xb131c0f0;
    assert W(m, 35) == 0x16263bc6 && W(m, 36) == 0x4ebed41e && W(m, 37) == 0x626380a1 && W(m, 38) == 0x16263806 && W(m, 39) == 0x000018c0;
  }

  lemma Schedule5(m: Chunk)
    requires Words3(m) && Words4(m)
    ensures Words5(m)
  {
    hide WordAt;
    assert W(m, 40) == 0xd2e138c4 && W(m, 41) == 0x00000f00 && W(m, 42) == 0x3afb5079 && W(m, 43) == 0x898e04e5 && W(m, 44) == 0xe2ba3c2b;
    assert W(m, 45) == 0x000060c0 && W(m, 46) == 0x053a37cd && W(m, 47) == 0x74458547 && W(m, 48) == 0xda9415ed && W(m, 49) == 0x26380a16;
  }

  lemma Schedule6(m: Chunk)
    requires Words4(m) && Words5(m)
    ensures Words6(m)
  {
    hide WordAt;
    assert W(m, 50) == 0x626383a1 && W(m, 51) == 0x4ebf54de && W(m, 52) == 0x3835b44b && W(m, 53) == 0x0000f600 && W(m, 54) == 0x1e84c7a3;
    assert W(m, 55) == 0x98e04d98 && W(m, 56) == 0x651d16a0 && W(m, 57) == 0x62658ca1 && W(m, 58) == 0x458544d6 && W(m, 59) == 0x44584cb7;
  }

  lemma Schedule7(m: Chunk)
    requires Words5(m) && Words6(m)
    ensures Words7(m)
  {
    hide WordAt;
    assert W(m, 60) == 0x7ba06619 && W(m, 61) == 0x6380aea2 && W(m, 62) == 0x0ae55269 && W(m, 63) == 0x627b49a1 && W(m, 64) == 0x7cd45c9d;
    assert W(m, 65) == 0x000f0000 && W(m, 66) == 0xfb50753a && W(m, 67) == 0xec6765e8 && W(m, 68) == 0xba3c2be2 && W(m, 69) == 0x0060c000;
  }

  lemma Schedule8(m: Chunk)
    requires Words6(m) && Words7(m)
    ensures Words8(m)
  {
    hide WordAt;
    assert W(m, 70) == 0x3a37cd05 && W(m, 71) == 0x458546f4 && W(m, 72) == 0xb8599dd6 && W(m, 73) == 0x380a1a26 && W(m, 74) == 0x01e02203;
    assert W(m, 75) == 0xe7cc3456 && W(m, 76) == 0xe6e60b69 && W(m, 77) == 0x00f60a00 && W(m, 78) == 0x5795ef4f && W(m, 79) == 0x822e0879;
  }

  lemma Steps1(h: Hash, m: Chunk)
    requires h == Hash(0x67452301, 0xefcdab89, 0x98badcfe, 0x10325476, 0xc3d2e1f0) && Words1(m)
    ensures Rounds(h, m, 10) == Hash(0x8351f929, 0x4b6ae328, 0x27a301f5, 0x664f8c30, 0x0ff1f290)
  {
    hide W;
    assert Rounds(h, m, 0) == Hash(0x67452301, 0xefcdab89, 0x98badcfe, 0x10325476, 0xc3d2e1f0);
    assert Rounds(h, m, 1).a == 0x0116fc33;
    assert Rounds(h, m, 2).a == 0x8990536d;
    assert Rounds(h, m, 3).a == 0xa1390f08;
    assert Rounds(h, m, 4).a == 0xcdd8e11b;
    assert Rounds(h, m, 5).a == 0xcfd499de;
    assert Rounds(h, m, 6).a == 0x3fc7ca40;
    assert Rounds(h, m, 7).a == 0x993e30c1;
    assert Rounds(h, m, 8).a == 0x9e8c07d4;
    assert Rounds(h, m, 9).a == 0x4b6ae328;
    assert Rounds(h, m, 10).a == 0x8351f929;
  }

  lemma Steps2(h: Hash, m: Chunk)
    requires h == Hash(0x67452301, 0xefcdab89, 0x98badcfe, 0x10325476, 0xc3d2e1f0) && Words2(m)
    requires Rounds(h, m, 10) == Hash(0x8351f929, 0x4b6ae328, 0x27a301f5, 0x664f8c30, 0x0ff1f290)
    ensures Rounds(h, m, 20) == Hash(0xfd9e1d7d, 0xdc64901d, 0x20aa99ca, 0xd3a49608, 0xc82f758b)
  {
    hide W;
    assert Rounds(h, m, 10) == Hash(0x8351f929, 0x4b6ae328, 0x27a301f5, 0x664f8c30, 0x0ff1f290);
    assert Rounds(h, m, 11).a == 0xfbda9e89;
    assert Rounds(h, m, 12).a == 0x63188fe4;
    assert Rounds(h, m, 13).a == 0x4607b664;
    assert Rounds(h, m, 14).a == 0x9128f695;
    assert Rounds(h, m, 15).a == 0x196bee77;
    assert Rounds(h, m, 16).a == 0x20bdd62f;
    assert Rounds(h, m, 17).a == 0x4e925823;
    assert Rounds(h, m, 18).a == 0x82aa6728;
    assert Rounds(h, m, 19).a == 0xdc64901d;
    assert Rounds(h, m, 20).a == 0xfd9e1d7d;
  }

  lemma Steps3(h: Hash, m: Chunk)
    requires h == Hash(0x67452301, 0xefcdab89, 0x98badcfe, 0x10325476, 0xc3d2e1f0) && Words3(m)
    requires Rounds(h, m, 20) == Hash(0xfd9e1d7d, 0xdc64901d, 0x20aa99ca, 0xd3a49608, 0xc82f758b)
    ensures Rounds(h, m, 30) == Hash(0xc5fbaf5d, 0x8370b52e, 0xd2aa1365, 0x6f8d7ef5, 0x12104ee9)
  {
    hide W;
    assert Rounds(h, m, 20) == Hash(0xfd9e1d7d, 0xdc64901d, 0x20aa99ca, 0xd3a49608, 0xc82f758b);
    assert Rounds(h, m, 21).a == 0x1a37b0ca;
    assert Rounds(h, m, 22).a == 0x33a23bfc;
    assert Rounds(h, m, 23).a == 0x21283486;
    assert Rounds(h, m, 24).a == 0xd541f12d;
    assert Rounds(h, m, 25).a == 0xc7567dc6;
    assert Rounds(h, m, 26).a == 0x48413ba4;
    assert Rounds(h, m, 27).a == 0xbe35fbd5;
    assert Rounds(h, m, 28).a == 0x4aa84d97;
    assert Rounds(h, m, 29).a == 0x8370b52e;
    assert Rounds(h, m, 30).a == 0xc5fbaf5d;
  }

  lemma Steps4(h: Hash, m: Chunk)
    requires h == Hash(0x67452301, 0xefcdab89, 0x98badcfe, 0x10325476, 0xc3d2e1f0) && Words4(m)
    requires Rounds(h, m, 30) == Hash(0xc5fbaf5d, 0x8370b52e, 0xd2aa1365, 0x6f8d7ef5, 0x12104ee9)
    ensures Rounds(h, m, 40) == Hash(0x32de1cba, 0x4c986405, 0xf718e5cf, 0x03d447f6, 0xf72eec32)
  {
    hide W;
    assert Rounds(h, m, 30) == Hash(0xc5fbaf5d, 0x8370b52e, 0xd2aa1365, 0x6f8d7ef5, 0x12104ee9);
    assert Rounds(h, m, 31).a == 0x1267b407;
    assert Rounds(h, m, 32).a == 0x3b845d33;
    assert Rounds(h, m, 33).a == 0x046faa0a;
    assert Rounds(h, m, 34).a == 0x2c0ebc11;
    assert Rounds(h, m, 35).a == 0x21796ad4;
    assert Rounds(h, m, 36).a == 0xdcbbb0cb;
    assert Rounds(h, m, 37).a == 0x0f511fd8;
    assert Rounds(h, m, 38).a == 0xdc63973f;
    assert Rounds(h, m, 39).a == 0x4c986405;
    assert Rounds(h, m, 40).a == 0x32de1cba;
  }

  lemma Steps5(h: Hash, m: Chunk)
    requires h == Hash(0x67452301, 0xefcdab89, 0x98badcfe, 0x10325476, 0xc3d2e1f0) && Words5(m)
    requires Rounds(h, m, 40) == Hash(0x32de1cba, 0x4c986405, 0xf718e5cf, 0x03d447f6, 0xf72eec32)
    ensures Rounds(h, m, 50) == Hash(0x120731c5, 0xbaf39337, 0xafab40b2, 0x2806e11b, 0x8714787c)
  {
    hide W;
    assert Rounds(h, m, 40) == Hash(0x32de1cba, 0x4c986405, 0xf718e5cf, 0x03d447f6, 0xf72eec32);
    assert Rounds(h, m, 41).a == 0xfc87dedf;
    assert Rounds(h, m, 42).a == 0x970a0d5c;
    assert Rounds(h, m, 43).a == 0x7f193dc5;
    assert Rounds(h, m, 44).a == 0xee1b1aaf;
    assert Rounds(h, m, 45).a == 0x40f28e09;
    assert Rounds(h, m, 46).a == 0x1c51e1f2;
    assert Rounds(h, m, 47).a == 0xa01b846c;
    assert Rounds(h, m, 48).a == 0xbead02ca;
    assert Rounds(h, m, 49).a == 0xbaf39337;
    assert Rounds(h, m, 50).a == 0x120731c5;
  }

  lemma Steps6(h: Hash, m: Chunk)
    requires h == Hash(0x67452301, 0xefcdab89, 0x98badcfe, 0x10325476, 0xc3d2e1f0) && Words6(m)
    requires Rounds(h, m, 50) == Hash(0x120731c5, 0xbaf39337, 0xafab40b2, 0x2806e11b, 0x8714787c)
    ensures Rounds(h, m, 60) == Hash(0x3f52de5a, 0x09d785fd, 0x3498bfd4, 0xf211824f, 0xd79915ab)
  {
    hide W;
    assert Rounds(h, m, 50) == Hash(0x120731c5, 0xbaf39337, 0xafab40b2, 0x2806e11b, 0x8714787c);
    assert Rounds(h, m, 51).a == 0x641db2ce;
    assert Rounds(h, m, 52).a == 0x3847ad66;
    assert Rounds(h, m, 53).a == 0xe490436d;
    assert Rounds(h, m, 54).a == 0x27e9f1d8;
    assert Rounds(h, m, 55).a == 0x7b71f76d;
    assert Rounds(h, m, 56).a == 0x5e6456af;
    assert Rounds(h, m, 57).a == 0xc846093f;
    assert Rounds(h, m, 58).a == 0xd262ff50;
    assert Rounds(h, m, 59).a == 0x09d785fd;
    assert Rounds(h, m, 60).a == 0x3f52de5a;
  }

  lemma Steps7(h: Hash, m: Chunk)
    requires h == Hash(0x67452301, 0xefcdab89, 0x98badcfe, 0x10325476, 0xc3d2e1f0) && Words7(m)
    requires Rounds(h, m, 60) == Hash(0x3f52de5a, 0x09d785fd, 0x3498bfd4, 0xf211824f, 0xd79915ab)
    ensures Rounds(h, m, 70) == Hash(0x3f2588c2, 0x497093c0, 0xde37534a, 0x030f7cad, 0x4405957e)
  {
    hide W;
    assert Rounds(h, m, 60) == Hash(0x3f52de5a, 0x09d785fd, 0x3498bfd4, 0xf211824f, 0xd79915ab);
    assert Rounds(h, m, 61).a == 0xd756c147;
    assert Rounds(h, m, 62).a == 0x548c9cb2;
    assert Rounds(h, m, 63).a == 0xb66c020b;
    assert Rounds(h, m, 64).a == 0x6b61c9e1;
    assert Rounds(h, m, 65).a == 0x19dfa7ac;
    assert Rounds(h, m, 66).a == 0x101655f9;
    assert Rounds(h, m, 67).a == 0x0c3df2b4;
    assert Rounds(h, m, 68).a == 0x78dd4d2b;
    assert Rounds(h, m, 69).a == 0x497093c0;
    assert Rounds(h, m, 70).a == 0x3f2588c2;
  }

  lemma Steps8(h: Hash, m: Chunk)
    requires h == Hash(0x67452301, 0xefcdab89, 0x98badcfe, 0x10325476, 0xc3d2e1f0) && Words8(m)
    requires Rounds(h, m, 70) == Hash(0x3f2588c2, 0x497093c0, 0xde37534a, 0x030f7cad, 0x4405957e)
    ensures Rounds(h, m, 80) == Hash(0x42541b35, 0x5738d5e1, 0x21834873, 0x681e6df6, 0xd8fdf6ad)
  {
    hide W;
    assert Rounds(h, m, 70) == Hash(0x3f2588c2, 0x497093c0, 0xde37534a, 0x030f7cad, 0x4405957e);
    assert Rounds(h, m, 71).a == 0xc199f8c7;
    assert Rounds(h, m, 72).a == 0x39859de7;
    assert Rounds(h, m, 73).a == 0xedb42de4;
    assert Rounds(h, m, 74).a == 0x11793f6f;
    assert Rounds(h, m, 75).a == 0x5ee76897;
    assert Rounds(h, m, 76).a == 0x63f7dab7;
    assert Rounds(h, m, 77).a == 0xa079b7d9;
    assert Rounds(h, m, 78).a == 0x860d21cc;
    assert Rounds(h, m, 79).a == 0x5738d5e1;
    assert Rounds(h, m, 80).a == 0x42541b35;
  }

  /** The one block of the message "abc". */
  lemma Compressed(m: Chunk)
    requires Block(m)
    ensures Compress(Hash(0x67452301, 0xefcdab89, 0x98badcfe, 0x10325476, 0xc3d2e1f0), m) == Hash(0xa9993e36, 0x4706816a, 0xba3e2571, 0x7850c26c, 0x9cd0d89d)
  {
    hide W, Rounds, Block, Words1, Words2, Words3, Words4, Words5, Words6, Words7, Words8;
    var h := Hash(0x67452301, 0xefcdab89, 0x98badcfe, 0x10325476, 0xc3d2e1f0);
    Schedule2(m); Schedule3(m); Schedule4(m); Schedule5(m); Schedule6(m); Schedule7(m); Schedule8(m);
    Steps1(h, m); Steps2(h, m); Steps3(h, m); Steps4(h, m); Steps5(h, m); Steps6(h, m); Steps7(h, m); Steps8(h, m);
  }

  // ------------------------------------------------ the digest

  const ABC: Octets := [0x61, 0x62, 0x63]

  lemma LengthBytes()
    ensures Be64(24) == [0, 0, 0, 0, 0, 0, 0, 0x18]
  {
    hide Value, ToByte;
    ByteValue(0);
    ByteValue(24);
    Values();
    ValueInjective(ToByte(0), 0);
    ValueInjective(ToByte(24), 0x18);
  }

  lemma Values()
    ensures Value(0) == 0 && Value(0x18) == 24
  {}

  /** Sixteen words of a padded block that holds three bytes. */
  lemma PaddedWords(p: Octets)
    requires p == [0x61, 0x62, 0x63] + [0x80] + Zeros(52) + [0, 0, 0, 0, 0, 0, 0, 0x18]
    ensures |p| == 64 && Block(p)
  {
    hide Rotl, Xor4;
    assert p[0] == 0x61 && p[1] == 0x62 && p[2] == 0x63 && p[3] == 0x80 && p[63] == 0x18;
    assert forall k: nat :: 4 <= k < 63 ==> p[k] == 0;
  }

  lemma PadAbc()
    ensures Pad(ABC) == [0x61, 0x62, 0x63] + [0x80] + Zeros(52) + [0, 0, 0, 0, 0, 0, 0, 0x18]
  {
    hide Be64, Zeros;
    LengthBytes();
  }

  lemma OneBlock(p: Chunk)
    ensures Blocks(p) == Compress(Init(), p)
  {
    hide Compress;
    assert p[..0] == [] && p[0..] == p;
  }

  lemma DigestBytes()
    ensures HashBytes(Hash(0xa9993e36, 0x4706816a, 0xba3e2571, 0x7850c26c, 0x9cd0d89d)) ==
      [0xa9, 0x99, 0x3e, 0x36, 0x47, 0x06, 0x81, 0x6a, 0xba, 0x3e, 0x25, 0x71, 0x78, 0x50, 0xc2, 0x6c, 0x9c, 0xd0, 0xd8, 0x9d]
  {}

  /** a9993e36 4706816a ba3e2571 7850c26c 9cd0d89d */
  lemma DigestAbc()
    ensures Digest(ABC) ==
      [0xa9, 0x99, 0x3e, 0x36, 0x47, 0x06, 0x81, 0x6a, 0xba, 0x3e, 0x25, 0x71, 0x78, 0x50, 0xc2, 0x6c, 0x9c, 0xd0, 0xd8, 0x9d]
  {
    hide Block, Compress, Blocks, Pad, HashBytes;
    PadAbc();
    PaddedWords(Pad(ABC));
    OneBlock(Pad(ABC));
    Compressed(Pad(ABC));
    DigestBytes();
  }
}
