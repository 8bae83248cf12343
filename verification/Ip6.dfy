/** The text form of an IPv6 address (main/BridgeUtils.cpp, Ip6ToStr). */
module Ip6 {
  import opened Common
  import opened Strings
  import opened Decimal
  import opened Hex

  /** esp_ip6_addr_t.addr: four 32-bit words, each holding four bytes in network order. */
  type Address = a: seq<uint32> | |a| == 4 witness [0, 0, 0, 0]

  /** esp_netif_htonl on the little-endian targets: reverses the four bytes. */
  function Htonl(x: uint32): (y: uint32) {
    x % 0x100 * 0x100_0000 + x / 0x100 % 0x100 * 0x1_0000 + x / 0x1_0000 % 0x100 * 0x100 + x / 0x100_0000
  }

  function High(x: uint32): uint16 {
    x / 0x1_0000
  }

  function Low(x: uint32): uint16 {
    x % 0x1_0000
  }

  /** The four words in the processor's byte order; the same function takes them back. */
  function Network(a: Address): Address {
    seq(4, i requires 0 <= i < 4 => Htonl(a[i]))
  }

  function Halves(w: Address): (bs: seq<uint16>)
    ensures |bs| == 8
  {
    [High(w[0]), Low(w[0]), High(w[1]), Low(w[1]), High(w[2]), Low(w[2]), High(w[3]), Low(w[3])]
  }

  /** The eight 16-bit blocks, in the order they are printed. */
  function Blocks(a: Address): (bs: seq<uint16>)
    ensures |bs| == 8
  {
    Halves(Network(a))
  }

  function Fields(bs: seq<uint16>): (fs: seq<string>)
    ensures |fs| == |bs|
  {
    seq(|bs|, i requires 0 <= i < |bs| => HexText(bs[i]))
  }

  /** The text of a list of blocks. */
  function BlocksText(bs: seq<uint16>): string
    requires bs != []
  {
    Join(Fields(bs), ':')
  }

  function Ip6Text(a: Address): string {
    BlocksText(Blocks(a))
  }

  method Ip6ToStr(ip6addr: Address) returns (text: string)
    ensures text == Ip6Text(ip6addr)
  {
    var block1, block2 := High(Htonl(ip6addr[0])), Low(Htonl(ip6addr[0]));
    var block3, block4 := High(Htonl(ip6addr[1])), Low(Htonl(ip6addr[1]));
    var block5, block6 := High(Htonl(ip6addr[2])), Low(Htonl(ip6addr[2]));
    var block7, block8 := High(Htonl(ip6addr[3])), Low(Htonl(ip6addr[3]));
    var s1 := DecToHexa(block1);
    var s2 := DecToHexa(block2);
    var s3 := DecToHexa(block3);
    var s4 := DecToHexa(block4);
    var s5 := DecToHexa(block5);
    var s6 := DecToHexa(block6);
    var s7 := DecToHexa(block7);
    var s8 := DecToHexa(block8);
    text := s1 + ":" + s2 + ":" + s3 + ":" + s4 + ":" + s5 + ":" + s6 + ":" + s7 + ":" + s8;
    assert Blocks(ip6addr) == [block1, block2, block3, block4, block5, block6, block7, block8];
    EightFields(Blocks(ip6addr));
    JoinEight(s1, s2, s3, s4, s5, s6, s7, s8);
  }

  lemma EightFields(bs: seq<uint16>)
    requires |bs| == 8
    ensures Fields(bs) == [HexText(bs[0]), HexText(bs[1]), HexText(bs[2]), HexText(bs[3]),
                           HexText(bs[4]), HexText(bs[5]), HexText(bs[6]), HexText(bs[7])]
  {
  }

  lemma JoinEight(s1: string, s2: string, s3: string, s4: string, s5: string, s6: string, s7: string, s8: string)
    ensures Join([s1, s2, s3, s4, s5, s6, s7, s8], ':')
         == s1 + ":" + s2 + ":" + s3 + ":" + s4 + ":" + s5 + ":" + s6 + ":" + s7 + ":" + s8
  {
    JoinFour(s1, s2, s3, s4);
    assert [s1, s2, s3, s4] + [s5] == [s1, s2, s3, s4, s5];
    JoinSnoc([s1, s2, s3, s4], s5);
    assert [s1, s2, s3, s4, s5] + [s6] == [s1, s2, s3, s4, s5, s6];
    JoinSnoc([s1, s2, s3, s4, s5], s6);
    assert [s1, s2, s3, s4, s5, s6] + [s7] == [s1, s2, s3, s4, s5, s6, s7];
    JoinSnoc([s1, s2, s3, s4, s5, s6], s7);
    assert [s1, s2, s3, s4, s5, s6, s7] + [s8] == [s1, s2, s3, s4, s5, s6, s7, s8];
    JoinSnoc([s1, s2, s3, s4, s5, s6, s7], s8);
  }

  lemma JoinFour(s1: string, s2: string, s3: string, s4: string)
    ensures Join([s1, s2, s3, s4], ':') == s1 + ":" + s2 + ":" + s3 + ":" + s4
  {
    assert [s1] + [s2] == [s1, s2];
    JoinSnoc([s1], s2);
    assert [s1, s2] + [s3] == [s1, s2, s3];
    JoinSnoc([s1, s2], s3);
    assert [s1, s2, s3] + [s4] == [s1, s2, s3, s4];
    JoinSnoc([s1, s2, s3], s4);
  }

  lemma {:induction false} JoinSnoc(fs: seq<string>, f: string)
    requires fs != []
    ensures Join(fs + [f], ':') == Join(fs, ':') + ":" + f
  {
    if |fs| == 1 {
      assert (fs + [f])[1..] == [f];
    } else {
      assert (fs + [f])[1..] == fs[1..] + [f];
      JoinSnoc(fs[1..], f);
    }
  }

  // ----- The blocks and the bytes of the address -----

  type byte = x: int | 0 <= x < 0x100

  /** The word a little-endian processor reads from four consecutive bytes. */
  function WordOf(b0: byte, b1: byte, b2: byte, b3: byte): uint32 {
    b0 + 0x100 * b1 + 0x1_0000 * b2 + 0x100_0000 * b3
  }

  lemma HtonlOfBytes(b0: byte, b1: byte, b2: byte, b3: byte)
    ensures Htonl(WordOf(b0, b1, b2, b3)) == WordOf(b3, b2, b1, b0)
  {
    var x := WordOf(b0, b1, b2, b3);
    assert x / 0x100 == b1 + 0x100 * b2 + 0x1_0000 * b3;
    assert x / 0x1_0000 == b2 + 0x100 * b3;
    assert x / 0x100_0000 == b3;
    assert x % 0x100 == b0;
    assert x / 0x100 % 0x100 == b1;
    assert x / 0x1_0000 % 0x100 == b2;
  }

  /** The two blocks of a word, in terms of its bytes as they lie in memory. */
  lemma WordBlocks(b0: byte, b1: byte, b2: byte, b3: byte)
    ensures High(Htonl(WordOf(b0, b1, b2, b3))) == BytePair(b0, b1)
    ensures Low(Htonl(WordOf(b0, b1, b2, b3))) == BytePair(b2, b3)
  {
    HtonlOfBytes(b0, b1, b2, b3);
    assert WordOf(b3, b2, b1, b0) == 0x1_0000 * (0x100 * b0 + b1) + (0x100 * b2 + b3);
  }

  function BytePair(high: int, low: int): int {
    0x100 * high + low
  }

  /** Block k of the text is made of bytes 2k and 2k+1 of the address as they lie in memory. */
  lemma BlocksAreBytePairs(m: seq<byte>)
    requires |m| == 16
    ensures Blocks([WordOf(m[0], m[1], m[2], m[3]), WordOf(m[4], m[5], m[6], m[7]),
                    WordOf(m[8], m[9], m[10], m[11]), WordOf(m[12], m[13], m[14], m[15])])
         == [BytePair(m[0], m[1]), BytePair(m[2], m[3]), BytePair(m[4], m[5]), BytePair(m[6], m[7]),
             BytePair(m[8], m[9]), BytePair(m[10], m[11]), BytePair(m[12], m[13]), BytePair(m[14], m[15])]
  {
    WordBlocks(m[0], m[1], m[2], m[3]);
    WordBlocks(m[4], m[5], m[6], m[7]);
    WordBlocks(m[8], m[9], m[10], m[11]);
    WordBlocks(m[12], m[13], m[14], m[15]);
  }

  lemma BytesOf(x: uint32) returns (b0: byte, b1: byte, b2: byte, b3: byte)
    ensures x == WordOf(b0, b1, b2, b3)
  {
    b0, b1, b2, b3 := x % 0x100, x / 0x100 % 0x100, x / 0x1_0000 % 0x100, x / 0x100_0000;
    assert x / 0x100 / 0x100 == x / 0x1_0000;
    assert x / 0x1_0000 / 0x100 == x / 0x100_0000;
  }

  lemma HtonlIsItsOwnInverse(x: uint32)
    ensures Htonl(Htonl(x)) == x
  {
    var b0, b1, b2, b3 := BytesOf(x);
    HtonlOfBytes(b0, b1, b2, b3);
    HtonlOfBytes(b3, b2, b1, b0);
  }

  // ----- Reading the text back -----

  function Word(high: uint16, low: uint16): uint32 {
    var h: int := high;
    0x1_0000 * h + low
  }

  /** The words with the given halves. */
  function Words(bs: seq<uint16>): Address
    requires |bs| == 8
  {
    [Word(bs[0], bs[1]), Word(bs[2], bs[3]), Word(bs[4], bs[5]), Word(bs[6], bs[7])]
  }

  /** The address with the given blocks. */
  function FromBlocks(bs: seq<uint16>): Address
    requires |bs| == 8
  {
    Network(Words(bs))
  }

  lemma WordOfHalves(x: uint32)
    ensures Word(High(x), Low(x)) == x
  {
  }

  lemma WordsOfHalves(w: Address)
    ensures Words(Halves(w)) == w
  {
    WordOfHalves(w[0]);
    WordOfHalves(w[1]);
    WordOfHalves(w[2]);
    WordOfHalves(w[3]);
    assert Words(Halves(w)) == [w[0], w[1], w[2], w[3]];
  }

  lemma NetworkIsItsOwnInverse(a: Address)
    ensures Network(Network(a)) == a
  {
    forall k | 0 <= k < 4 ensures Network(Network(a))[k] == a[k] {
      HtonlIsItsOwnInverse(a[k]);
    }
  }

  lemma BlocksAndBack(a: Address)
    ensures FromBlocks(Blocks(a)) == a
  {
    WordsOfHalves(Network(a));
    NetworkIsItsOwnInverse(a);
  }

  /** The address whose fields are written in the text, an empty field standing for 0. */
  function ReadFields(text: string): Option<Address> {
    var fs := Split(text, ':');
    if |fs| == 8 && forall i :: 0 <= i < 8 ==> 0 <= HexValue(fs[i]) < 0x1_0000 then
      Some(FromBlocks(seq(8, i requires 0 <= i < 8 => HexValue(fs[i]))))
    else None
  }

  lemma FieldsFree(bs: seq<uint16>)
    ensures AllFree(Fields(bs), ':') && AllFree(Fields(bs), '.')
  {
    forall i | 0 <= i < |bs| ensures ':' !in HexText(bs[i]) && '.' !in HexText(bs[i]) {
      HexTextChars(bs[i]);
    }
  }

  lemma SplitOfText(a: Address)
    ensures Split(Ip6Text(a), ':') == Fields(Blocks(a))
  {
    FieldsFree(Blocks(a));
    SplitOfJoin(Fields(Blocks(a)), ':');
  }

  /** The text always has eight fields, and they give the address back, whatever it is. */
  lemma TextReadsBack(a: Address)
    ensures |Split(Ip6Text(a), ':')| == 8
    ensures ReadFields(Ip6Text(a)) == Some(a)
  {
    SplitOfText(a);
    ReadFieldsOf(Ip6Text(a), Blocks(a));
    BlocksAndBack(a);
  }

  lemma ReadFieldsOf(text: string, bs: seq<uint16>)
    requires |bs| == 8 && Split(text, ':') == Fields(bs)
    ensures ReadFields(text) == Some(FromBlocks(bs))
  {
    forall i | 0 <= i < 8 ensures HexValue(Fields(bs)[i]) == bs[i] {
      HexTextValue(bs[i]);
    }
    assert seq(8, i requires 0 <= i < 8 => HexValue(Fields(bs)[i])) == bs;
  }

  /** Different addresses have different texts. */
  lemma Ip6TextInjective(a: Address, b: Address)
    requires Ip6Text(a) == Ip6Text(b)
    ensures a == b
  {
    TextReadsBack(a);
    TextReadsBack(b);
  }

  lemma {:induction false} JoinLength(fs: seq<string>, bound: nat)
    requires fs != [] && forall i :: 0 <= i < |fs| ==> |fs[i]| <= bound
    ensures |fs| - 1 <= |Join(fs, ':')| <= |fs| - 1 + |fs| * bound
  {
    if |fs| > 1 {
      JoinLength(fs[1..], bound);
      assert |fs| * bound == (|fs| - 1) * bound + bound;
    }
  }

  /** The text has seven colons and at most four digits a block: at most 39 characters. */
  lemma TextLength(a: Address)
    ensures 7 <= |Ip6Text(a)| <= 39
  {
    var fs := Fields(Blocks(a));
    forall i | 0 <= i < 8 ensures |fs[i]| <= 4 {
      BlockLength(Blocks(a)[i]);
    }
    JoinLength(fs, 4);
  }

  lemma BlockLength(b: uint16)
    ensures |HexText(b)| <= 4
  {
    assert Power(16, 2) == 256;
    assert Power(16, 4) == 16 * (16 * Power(16, 2)) == 0x1_0000;
    HexTextLength(b, 4);
  }
}
