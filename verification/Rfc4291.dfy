/**
 The text forms of IPv6 addresses of section 2.2 of RFC 4291, as a relation between texts and
 lists of eight 16-bit groups, and exactly which addresses Ip6ToStr writes in one of them.
 */
module Rfc4291 {
  import opened Common
  import opened Strings
  import opened Decimal
  import opened Hex
  import opened Ip6

  // ----- The standard -----

  predicate IsHexDigit(c: char) {
    '0' <= c <= '9' || 'A' <= c <= 'F' || 'a' <= c <= 'f'
  }

  function HexDigit(c: char): nat
    requires IsHexDigit(c)
  {
    if c <= '9' then c as int - 48 else if c <= 'F' then c as int - 55 else c as int - 87
  }

  function ReadHex(f: string): nat
    requires forall i :: 0 <= i < |f| ==> IsHexDigit(f[i])
  {
    if f == "" then 0 else 16 * ReadHex(f[..|f| - 1]) + HexDigit(f[|f| - 1])
  }

  /** A group: one to four hexadecimal digits. */
  predicate IsGroup(f: string) {
    1 <= |f| <= 4 && forall i :: 0 <= i < |f| ==> IsHexDigit(f[i])
  }

  predicate IsOctet(f: string) {
    1 <= |f| <= 3 && Leading(f) == f && Value(f) <= 255
  }

  /** Four decimal octets separated by dots; they stand for the last two groups. */
  predicate IsQuad(f: string) {
    var os := Split(f, '.');
    |os| == 4 && ':' !in f && forall i :: 0 <= i < 4 ==> IsOctet(os[i])
  }

  /**
   The groups a list of fields stands for; only the last field may be a dotted quad, and only where
   one is allowed.
   */
  function Groups(fs: seq<string>, quad: bool): Option<seq<int>> {
    if fs == [] then Some([])
    else if IsGroup(fs[0]) then
      var rest := Groups(fs[1..], quad);
      if rest.None? then None else Some([ReadHex(fs[0])] + rest.value)
    else if quad && |fs| == 1 && IsQuad(fs[0]) then
      var os := Split(fs[0], '.');
      Some([256 * Value(os[0]) + Value(os[1]), 256 * Value(os[2]) + Value(os[3])])
    else None
  }

  function Zeros(n: nat): seq<int> {
    seq(n, _ => 0)
  }

  /** The fields on one side of "::"; there may be none. */
  function Side(fs: seq<string>): string {
    if fs == [] then "" else Join(fs, ':')
  }

  /** Items 1 and 3: all eight groups are written. */
  ghost predicate ReadsInFull(text: string, groups: seq<int>, fs: seq<string>) {
    fs != [] && text == Join(fs, ':') && Groups(fs, true) == Some(groups) && |groups| == 8
  }

  /** Item 2: one "::" stands for one or more groups of zeros. */
  ghost predicate ReadsCompressed(text: string, groups: seq<int>, ls: seq<string>, rs: seq<string>) {
    && text == Side(ls) + "::" + Side(rs)
    && Groups(ls, false).Some? && Groups(rs, true).Some?
    && FilledUp(groups, Groups(ls, false).value, Groups(rs, true).value)
  }

  /** The two lists with one or more zeros between them, eight groups in all. */
  predicate FilledUp(groups: seq<int>, l: seq<int>, r: seq<int>) {
    |l| + |r| <= 7 && groups == l + Zeros(8 - |l| - |r|) + r
  }

  /** The text is a form of the address made of the given groups. */
  ghost predicate Reads(text: string, groups: seq<int>) {
    || (exists fs :: ReadsInFull(text, groups, fs))
    || (exists ls, rs :: ReadsCompressed(text, groups, ls, rs))
  }

  // ----- Fields of the printed text -----

  lemma {:induction false} ReadHexOf(f: string)
    requires AllHex(f)
    ensures ReadHex(f) == HexValue(f)
  {
    if f != "" {
      ReadHexOf(f[..|f| - 1]);
    }
  }

  /** A printed block is a group exactly when it is not zero, and never a dotted quad. */
  lemma BlockField(b: uint16)
    ensures IsGroup(HexText(b)) <==> b != 0
    ensures IsGroup(HexText(b)) ==> ReadHex(HexText(b)) == b
    ensures !IsQuad(HexText(b))
  {
    HexTextChars(b);
    HexTextValue(b);
    BlockLength(b);
    assert '.' !in HexText(b);
    SplitFree(HexText(b), '.');
    if b != 0 {
      ReadHexOf(HexText(b));
    }
  }

  /** The printed blocks are groups exactly when none of them is zero, and then they read as themselves. */
  lemma {:induction false} GroupsOfFields(bs: seq<uint16>, quad: bool)
    ensures Groups(Fields(bs), quad) == if 0 in bs then None else Some(bs)
  {
    if bs != [] {
      BlockField(bs[0]);
      GroupsOfFields(bs[1..], quad);
      assert Fields(bs)[1..] == Fields(bs[1..]);
      assert bs == [bs[0]] + bs[1..];
    }
  }

  /** Fields that stand for groups are neither empty nor contain a colon. */
  lemma {:induction false} GroupFields(fs: seq<string>, quad: bool)
    requires Groups(fs, quad).Some?
    ensures AllFree(fs, ':')
    ensures "" !in fs
    ensures |fs| <= |Groups(fs, quad).value|
  {
    if fs != [] {
      if IsGroup(fs[0]) {
        GroupFields(fs[1..], quad);
        assert fs == [fs[0]] + fs[1..];
      } else {
        assert fs == [fs[0]];
        SplitFree("", '.');
      }
    }
  }

  // ----- Where "::" can come from -----

  /** The fields around "::", as splitting at ':' sees them. */
  function Padded(fs: seq<string>): (ps: seq<string>)
    ensures ps != []
  {
    if fs == [] then [""] else fs
  }

  lemma SplitCompressed(ls: seq<string>, rs: seq<string>)
    requires AllFree(ls, ':') && AllFree(rs, ':')
    ensures Split(Side(ls) + "::" + Side(rs), ':') == Padded(ls) + [""] + Padded(rs)
  {
    SplitAtDoubleColon(Side(ls), Side(rs));
    SplitSide(ls);
    SplitSide(rs);
  }

  lemma SplitAtDoubleColon(l: string, r: string)
    ensures Split(l + "::" + r, ':') == Split(l, ':') + [""] + Split(r, ':')
  {
    DoubleColon(l, r);
    SplitConcat(l, "" + [':'] + r, ':');
    SplitField("", r, ':');
    AppendAssoc(Split(l, ':'), [""], Split(r, ':'));
  }

  lemma DoubleColon(l: string, r: string)
    ensures l + "::" + r == l + [':'] + ("" + [':'] + r)
  {
    assert "::" == [':'] + ("" + [':']);
  }

  lemma SplitSide(fs: seq<string>)
    requires AllFree(fs, ':')
    ensures Split(Side(fs), ':') == Padded(fs)
  {
    if fs != [] {
      SplitOfJoin(fs, ':');
    }
  }

  // ----- The theorem -----

  /** The positions of the zero blocks, counted from 0. */
  function ZeroBlocks(bs: seq<uint16>): set<int> {
    set k | 0 <= k < |bs| && bs[k] == 0
  }

  /** The sets of zero blocks whose printed form is a text form of the standard. */
  predicate Printable(zeros: set<int>) {
    zeros == {} || (exists k :: 1 <= k <= 6 && zeros == {k}) || zeros == {0, 1} || zeros == {6, 7}
  }

  lemma FullReading(text: string, bs: seq<uint16>, groups: seq<int>, fs: seq<string>)
    requires |bs| == 8 && Split(text, ':') == Fields(bs) && ReadsInFull(text, groups, fs)
    ensures ZeroBlocks(bs) == {} && groups == bs
  {
    GroupFields(fs, true);
    SplitOfJoin(fs, ':');
    GroupsOfFields(bs, true);
  }

  /** A compressed reading cuts the fields of the text in three: fields before, empty fields, fields after. */
  lemma CompressedFields(bs: seq<uint16>, ls: seq<string>, rs: seq<string>)
    requires |bs| == 8 && "" !in ls && "" !in rs
    requires Fields(bs) == Padded(ls) + [""] + Padded(rs)
    ensures |ls| + |rs| == (if ls == [] || rs == [] then 6 else 7)
    ensures ls == Fields(bs[..|ls|]) && rs == Fields(bs[8 - |rs|..])
    ensures forall k :: |ls| <= k < 8 - |rs| ==> bs[k] == 0
  {
    CutInThree(Fields(bs), ls, rs);
    FieldsSlice(bs, 0, |ls|);
    FieldsSlice(bs, 8 - |rs|, 8);
    forall k | |ls| <= k < 8 - |rs| ensures bs[k] == 0 {
      assert Fields(bs)[k] == "";
      EmptyIsZero(bs, k);
    }
  }

  lemma FieldsSlice(bs: seq<uint16>, i: nat, j: nat)
    requires i <= j <= |bs|
    ensures Fields(bs[i..j]) == Fields(bs)[i..j]
  {
  }

  lemma EmptyIsZero(bs: seq<uint16>, k: nat)
    requires k < |bs| && Fields(bs)[k] == ""
    ensures bs[k] == 0
  {
    HexTextValue(bs[k]);
  }

  lemma CutInThree(fs: seq<string>, ls: seq<string>, rs: seq<string>)
    requires |fs| == 8 && "" !in ls && "" !in rs && fs == Padded(ls) + [""] + Padded(rs)
    ensures |ls| + |rs| == (if ls == [] || rs == [] then 6 else 7)
    ensures ls == fs[..|ls|] && rs == fs[8 - |rs|..]
    ensures forall k :: |ls| <= k < 8 - |rs| ==> fs[k] == ""
  {
  }

  /** Where the empty fields of a compressed reading can lie. */
  predicate Gap(i: nat, j: nat) {
    (i == 0 && j == 2) || (i == 6 && j == 8) || (1 <= i <= 6 && j == i + 1)
  }

  /** The zero blocks are exactly those from i up to j, and they print as "::". */
  ghost predicate ZeroRun(bs: seq<uint16>, i: nat, j: nat) {
    && |bs| == 8
    && Gap(i, j)
    && forall k :: 0 <= k < 8 ==> (bs[k] == 0 <==> i <= k < j)
  }

  /** The fields are those before and after the gap, and every block in the gap is zero. */
  ghost predicate CutAt(bs: seq<uint16>, i: nat, j: nat, ls: seq<string>, rs: seq<string>) {
    && |bs| == 8 && Gap(i, j)
    && ls == Fields(bs[..i]) && rs == Fields(bs[j..])
    && forall k :: i <= k < j ==> bs[k] == 0
  }

  lemma CompressedReading(text: string, bs: seq<uint16>, groups: seq<int>, ls: seq<string>, rs: seq<string>)
    requires |bs| == 8 && Split(text, ':') == Fields(bs) && ReadsCompressed(text, groups, ls, rs)
    ensures groups == bs && Printable(ZeroBlocks(bs))
  {
    CompressedCut(text, bs, ls, rs);
    var l, r := SideGroups(bs, |ls|, 8 - |rs|, ls, rs);
    GapReading(bs, |ls|, 8 - |rs|, l, r, groups);
  }

  lemma CompressedCut(text: string, bs: seq<uint16>, ls: seq<string>, rs: seq<string>)
    requires |bs| == 8 && Split(text, ':') == Fields(bs) && text == Side(ls) + "::" + Side(rs)
    requires Groups(ls, false).Some? && Groups(rs, true).Some?
    ensures |rs| <= 8 && CutAt(bs, |ls|, 8 - |rs|, ls, rs)
  {
    SplitGroups(ls, rs);
    CutFields(bs, ls, rs);
  }

  lemma SplitGroups(ls: seq<string>, rs: seq<string>)
    requires Groups(ls, false).Some? && Groups(rs, true).Some?
    ensures Split(Side(ls) + "::" + Side(rs), ':') == Padded(ls) + [""] + Padded(rs)
  {
    GroupFields(ls, false);
    GroupFields(rs, true);
    SplitCompressed(ls, rs);
  }

  lemma CutFields(bs: seq<uint16>, ls: seq<string>, rs: seq<string>)
    requires |bs| == 8 && Fields(bs) == Padded(ls) + [""] + Padded(rs)
    requires Groups(ls, false).Some? && Groups(rs, true).Some?
    ensures |rs| <= 8 && CutAt(bs, |ls|, 8 - |rs|, ls, rs)
  {
    GroupFields(ls, false);
    GroupFields(rs, true);
    CompressedFields(bs, ls, rs);
  }

  /** The fields on either side of the gap stand for the blocks there, none of which is zero. */
  lemma SideGroups(bs: seq<uint16>, i: nat, j: nat, ls: seq<string>, rs: seq<string>)
    returns (l: seq<int>, r: seq<int>)
    requires CutAt(bs, i, j, ls, rs) && Groups(ls, false).Some? && Groups(rs, true).Some?
    ensures Groups(ls, false) == Some(l) && Groups(rs, true) == Some(r)
    ensures ZeroRun(bs, i, j) && l == bs[..i] && r == bs[j..]
  {
    GroupsOfFields(bs[..i], false);
    GroupsOfFields(bs[j..], true);
    l, r := bs[..i], bs[j..];
    OnlyGapIsZero(bs, i, j);
  }

  lemma OnlyGapIsZero(bs: seq<uint16>, i: nat, j: nat)
    requires |bs| == 8 && Gap(i, j) && 0 !in bs[..i] && 0 !in bs[j..]
    requires forall k :: i <= k < j ==> bs[k] == 0
    ensures ZeroRun(bs, i, j)
  {
    forall k | 0 <= k < 8 ensures bs[k] == 0 <==> i <= k < j {
      if k < i {
        assert bs[k] == bs[..i][k];
      } else if k >= j {
        assert bs[k] == bs[j..][k - j];
      }
    }
  }

  /** Putting zeros for the gap between the two sides gives the blocks back. */
  lemma GapReading(bs: seq<uint16>, i: nat, j: nat, l: seq<int>, r: seq<int>, groups: seq<int>)
    requires ZeroRun(bs, i, j) && l == bs[..i] && r == bs[j..] && FilledUp(groups, l, r)
    ensures groups == bs && Printable(ZeroBlocks(bs))
  {
    assert |groups| == 8 && forall k :: 0 <= k < 8 ==> groups[k] == bs[k];
    assert ZeroBlocks(bs) == if j == i + 1 then {i} else {i, i + 1};
  }

  lemma FieldsConcat(a: seq<uint16>, b: seq<uint16>)
    ensures Fields(a + b) == Fields(a) + Fields(b)
  {
  }

  lemma EmptyFields(bs: seq<uint16>)
    requires forall k :: 0 <= k < |bs| ==> bs[k] == 0
    ensures |bs| == 1 ==> Fields(bs) == [""]
    ensures |bs| == 2 ==> Fields(bs) == [""] + [""]
  {
    assert HexText(0) == "";
  }

  lemma PaddedFields(bs: seq<uint16>, i: nat, j: nat)
    requires ZeroRun(bs, i, j)
    ensures Fields(bs) == Padded(Fields(bs[..i])) + [""] + Padded(Fields(bs[j..]))
  {
    var l, m, r := bs[..i], bs[i..j], bs[j..];
    assert bs == l + m + r;
    FieldsConcat(l + m, r);
    FieldsConcat(l, m);
    EmptyFields(m);
    if i == 0 {
      assert Fields(l) == [];
    } else if j == 8 {
      assert Fields(r) == [];
    }
  }

  lemma CompressedWitness(text: string, bs: seq<uint16>, i: nat, j: nat)
    requires ZeroRun(bs, i, j) && text == Join(Fields(bs), ':')
    ensures Reads(text, bs)
  {
    var ls, rs := Fields(bs[..i]), Fields(bs[j..]);
    SidesPrint(text, bs, i, j);
    SidesStandFor(bs, i, j, ls, rs);
    CompressedReads(text, bs, ls, rs);
  }

  lemma SidesStandFor(bs: seq<uint16>, i: nat, j: nat, ls: seq<string>, rs: seq<string>)
    requires ZeroRun(bs, i, j) && ls == Fields(bs[..i]) && rs == Fields(bs[j..])
    ensures Groups(ls, false) == Some(bs[..i]) && Groups(rs, true) == Some(bs[j..])
    ensures FilledUp(bs, bs[..i], bs[j..])
  {
    GapIsZeros(bs, i, j);
    GroupsOfFields(bs[..i], false);
    GroupsOfFields(bs[j..], true);
  }

  lemma GapIsZeros(bs: seq<uint16>, i: nat, j: nat)
    requires ZeroRun(bs, i, j)
    ensures FilledUp(bs, bs[..i], bs[j..]) && 0 !in bs[..i] && 0 !in bs[j..]
  {
    assert bs == bs[..i] + Zeros(j - i) + bs[j..];
  }

  lemma CompressedReads(text: string, groups: seq<int>, ls: seq<string>, rs: seq<string>)
    requires text == Side(ls) + "::" + Side(rs)
    requires Groups(ls, false).Some? && Groups(rs, true).Some?
    requires FilledUp(groups, Groups(ls, false).value, Groups(rs, true).value)
    ensures Reads(text, groups)
  {
    assert ReadsCompressed(text, groups, ls, rs);
  }

  lemma SidesPrint(text: string, bs: seq<uint16>, i: nat, j: nat)
    requires ZeroRun(bs, i, j) && text == Join(Fields(bs), ':')
    ensures text == Side(Fields(bs[..i])) + "::" + Side(Fields(bs[j..]))
  {
    var ls, rs := Fields(bs[..i]), Fields(bs[j..]);
    FieldsFree(bs[..i]);
    FieldsFree(bs[j..]);
    SplitCompressed(ls, rs);
    PaddedFields(bs, i, j);
    JoinOfSplit(Side(ls) + "::" + Side(rs), ':');
  }

  lemma PrintableReads(bs: seq<uint16>)
    requires |bs| == 8 && Printable(ZeroBlocks(bs))
    ensures Reads(BlocksText(bs), bs)
  {
    var text := BlocksText(bs);
    var zeros := ZeroBlocks(bs);
    assert forall k :: 0 <= k < 8 ==> (bs[k] == 0 <==> k in zeros);
    if zeros == {} {
      GroupsOfFields(bs, true);
      assert ReadsInFull(text, bs, Fields(bs));
    } else if zeros == {0, 1} {
      CompressedWitness(text, bs, 0, 2);
    } else if zeros == {6, 7} {
      CompressedWitness(text, bs, 6, 8);
    } else {
      var k :| 1 <= k <= 6 && zeros == {k};
      CompressedWitness(text, bs, k, k + 1);
    }
  }

  lemma ReadsOnlyAsPrinted(bs: seq<uint16>, groups: seq<int>)
    requires |bs| == 8 && Reads(BlocksText(bs), groups)
    ensures groups == bs && Printable(ZeroBlocks(bs))
  {
    var text := BlocksText(bs);
    FieldsFree(bs);
    SplitOfJoin(Fields(bs), ':');
    if exists fs :: ReadsInFull(text, groups, fs) {
      var fs :| ReadsInFull(text, groups, fs);
      FullReading(text, bs, groups, fs);
    } else {
      var ls, rs :| ReadsCompressed(text, groups, ls, rs);
      CompressedReading(text, bs, groups, ls, rs);
    }
  }

  /**
   Eight printed blocks are a text form of some address exactly when no block is zero, or a single
   block other than the first and the last is, or exactly the first two are, or exactly the last two
   are; and then they are a form of the address with those blocks and of no other.
   */
  lemma BlocksAreStandardExactlyWhenPrintable(bs: seq<uint16>)
    requires |bs| == 8
    ensures (exists groups :: Reads(BlocksText(bs), groups)) <==> Printable(ZeroBlocks(bs))
    ensures forall groups :: Reads(BlocksText(bs), groups) ==> groups == bs
  {
    if Printable(ZeroBlocks(bs)) {
      PrintableReads(bs);
    }
    forall groups | Reads(BlocksText(bs), groups)
      ensures groups == bs && Printable(ZeroBlocks(bs))
    {
      ReadsOnlyAsPrinted(bs, groups);
    }
  }

  /** The same for the text Ip6ToStr prints for an address. */
  lemma TextIsStandardExactlyWhenPrintable(a: Address)
    ensures (exists groups :: Reads(Ip6Text(a), groups)) <==> Printable(ZeroBlocks(Blocks(a)))
    ensures forall groups :: Reads(Ip6Text(a), groups) ==> groups == Blocks(a)
  {
    var bs := Blocks(a);
    assert Ip6Text(a) == BlocksText(bs);
    BlocksAreStandardExactlyWhenPrintable(bs);
  }
}
