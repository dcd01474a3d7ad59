/**
 * Concrete inputs and the exact output Pack gives for them.
 */
module Scenarios {
  import opened Results
  import opened Bytes
  import opened Whitespace
  import opened Hex
  import opened Create
  import opened Format

  /** Lines without surrounding whitespace are all kept, unchanged. */
  lemma {:induction false} KeptTrimmedLines(lines: seq<string>)
    requires forall i :: 0 <= i < |lines| ==> lines[i] != [] && Trimmed(lines[i])
    ensures Kept(lines) == lines
  {
    if lines != [] {
      var init := lines[..|lines| - 1];
      KeptTrimmedLines(init);
      KeptTrimmedLast(lines);
      assert init + [lines[|lines| - 1]] == lines;
    }
  }

  lemma KeptTrimmedLast(lines: seq<string>)
    requires lines != [] && lines[|lines| - 1] != [] && Trimmed(lines[|lines| - 1])
    ensures Kept(lines) == Kept(lines[..|lines| - 1]) + [lines[|lines| - 1]]
  {
    var last := lines[|lines| - 1];
    StripUnique([], last, []);
    assert [] + last + [] == last;
  }

  /** Two hex digits decode to the one byte they stand for. */
  lemma DecodeTwoDigits(c: char, d: char)
    requires IsHexDigit(c) && IsHexDigit(d)
    ensures DecodeHex([c, d]) == Success([PairValue(c, d) as byte])
  {
    assert DecodePairs([], 0) == Success([]);
    DecodePairsSnoc([], 0, c, d);
    assert [] + [c, d] == [c, d];
    assert DecodeHex([c, d]) == DecodePairs([c, d], 1);
    var x: seq<byte> := [PairValue(c, d) as byte];
    assert [] + x == x;
  }

  /** Two kept lines that decode give their two records, in order. */
  lemma DecodeAllTwo(a: string, b: string)
    requires DecodeHex(a).Success? && DecodeHex(b).Success?
    ensures DecodeAll([a, b]) == Success([DecodeHex(a).value, DecodeHex(b).value])
  {
    var x, y := DecodeHex(a).value, DecodeHex(b).value;
    var none: seq<seq<byte>> := [];
    assert DecodeAll([]) == Success(none);
    DecodeAllSnoc([], a);
    assert [] + [a] == [a] && none + [x] == [x];
    DecodeAllSnoc([a], b);
    assert [a] + [b] == [a, b] && [x] + [y] == [x, y];
  }

  /** Three kept lines that decode give their three records, in order. */
  lemma DecodeAllThree(a: string, b: string, c: string)
    requires DecodeHex(a).Success? && DecodeHex(b).Success? && DecodeHex(c).Success?
    ensures DecodeAll([a, b, c]) == Success([DecodeHex(a).value, DecodeHex(b).value, DecodeHex(c).value])
  {
    var x, y, z := DecodeHex(a).value, DecodeHex(b).value, DecodeHex(c).value;
    DecodeAllTwo(a, b);
    DecodeAllSnoc([a, b], c);
    assert [a, b] + [c] == [a, b, c] && [x, y] + [z] == [x, y, z];
  }

  lemma DecodeScenarioLines()
    ensures DecodeAll(["aa", "bb", "cc"]) == Success([[0xAA], [0xBB], [0xCC]])
  {
    var x: seq<byte> := [0xAA];
    var y: seq<byte> := [0xBB];
    var z: seq<byte> := [0xCC];
    DecodeTwoDigits('a', 'a');
    DecodeTwoDigits('b', 'b');
    DecodeTwoDigits('c', 'c');
    assert DecodeHex("aa") == Success(x);
    assert DecodeHex("bb") == Success(y);
    assert DecodeHex("cc") == Success(z);
    DecodeAllThree("aa", "bb", "cc");
  }

  lemma PackScenarioRecords()
    ensures PackRecords(1, [[0xAA], [0xBB], [0xCC]]) == Success([0, 0, 0, 1, 0, 0, 0, 3, 0xAA, 0xBB, 0xCC])
  {
    var rs: seq<seq<byte>> := [[0xAA], [0xBB], [0xCC]];
    assert rs[1..][1..][1..] == [];
    assert Flatten(rs) == [0xAA, 0xBB, 0xCC];
    var one: seq<byte> := [0, 0, 0, 1];
    var three: seq<byte> := [0, 0, 0, 3];
    assert EncodeU32BE(1) == one;
    assert EncodeU32BE(3) == three;
    var body: seq<byte> := [0xAA, 0xBB, 0xCC];
    assert one + three + body == [0, 0, 0, 1, 0, 0, 0, 3, 0xAA, 0xBB, 0xCC];
  }

  /** Records come out in the order of their lines: "aa", "bb", "cc" give AA BB CC after the header (1, 3). */
  lemma OrderScenario()
    ensures Pack(["aa", "bb", "cc"]) == Success([0, 0, 0, 1, 0, 0, 0, 3, 0xAA, 0xBB, 0xCC])
  {
    var lines := ["aa", "bb", "cc"];
    KeptTrimmedLines(lines);
    DecodeScenarioLines();
    PackScenarioRecords();
    assert HashLen(lines) == 1;
  }

  /** A line of odd length stops the conversion with a decoding error and no output. */
  lemma OddLineScenario()
    ensures Pack(["00", "abc"]) == Failure(DecodeError(OddLength))
  {
    KeptTrimmedLines(["00", "abc"]);
    OddLineDecode();
  }

  lemma OddLineDecode()
    ensures DecodeAll(["00", "abc"]) == Failure(OddLength)
  {
    DecodeTwoDigits('0', '0');
    assert DecodeHex("abc") == Failure(OddLength);
    assert DecodeAll(["00"]).Success?;
    assert ["00", "abc"][..1] == ["00"];
  }

  /**
   * Nothing checks that later lines have the first line's length: "aabb"
   * then "cc" pack to a header announcing two records of two bytes over a
   * body of three bytes, which a reader of the format refuses.
   */
  lemma MixedLengthScenario()
    ensures Pack(["aabb", "cc"]) == Success([0, 0, 0, 2, 0, 0, 0, 2, 0xAA, 0xBB, 0xCC])
    ensures Unpack([0, 0, 0, 2, 0, 0, 0, 2, 0xAA, 0xBB, 0xCC]).None?
  {
    var lines := ["aabb", "cc"];
    KeptTrimmedLines(lines);
    MixedLengthDecode();
    MixedLengthRecords();
    MixedLengthUnreadable();
    assert HashLen(lines) == 2;
  }

  lemma MixedLengthUnreadable()
    ensures Unpack([0, 0, 0, 2, 0, 0, 0, 2, 0xAA, 0xBB, 0xCC]).None?
  {
    var out: seq<byte> := [0, 0, 0, 2, 0, 0, 0, 2, 0xAA, 0xBB, 0xCC];
    var two: seq<byte> := [0, 0, 0, 2];
    assert out[..4] == two && out[4..8] == two;
    assert DecodeU32BE(two) == 2;
  }

  lemma MixedLengthRecords()
    ensures PackRecords(2, [[0xAA, 0xBB], [0xCC]]) == Success([0, 0, 0, 2, 0, 0, 0, 2, 0xAA, 0xBB, 0xCC])
  {
    var rs: seq<seq<byte>> := [[0xAA, 0xBB], [0xCC]];
    assert rs[1..][1..] == [];
    assert Flatten(rs) == [0xAA, 0xBB, 0xCC];
    var two: seq<byte> := [0, 0, 0, 2];
    assert EncodeU32BE(2) == two;
    var body: seq<byte> := [0xAA, 0xBB, 0xCC];
    assert two + two + body == [0, 0, 0, 2, 0, 0, 0, 2, 0xAA, 0xBB, 0xCC];
  }

  lemma MixedLengthDecode()
    ensures DecodeAll(["aabb", "cc"]) == Success([[0xAA, 0xBB], [0xCC]])
  {
    var x: seq<byte> := [0xAA, 0xBB];
    var z: seq<byte> := [0xCC];
    DecodeTwoDigits('a', 'a');
    DecodeTwoDigits('c', 'c');
    assert DecodePairs("aa", 1) == Success([0xAA]);
    DecodePairsSnoc("aa", 1, 'b', 'b');
    assert "aa" + ['b', 'b'] == "aabb";
    assert [0xAA] + [PairValue('b', 'b') as byte] == x;
    assert DecodeHex("aabb") == Success(x);
    assert DecodeHex("cc") == Success(z);
    DecodeAllTwo("aabb", "cc");
  }

  /** Eight hex digits decode to the four bytes their pairs stand for. */
  lemma DecodeFourPairs(s: string)
    requires |s| == 8 && AllHexDigits(s)
    ensures DecodeHex(s) == Success([PairValue(s[0], s[1]) as byte, PairValue(s[2], s[3]) as byte,
                                     PairValue(s[4], s[5]) as byte, PairValue(s[6], s[7]) as byte])
  {
    var r := DecodeHex(s).value;
    assert r[0] as int == PairValue(s[0], s[1]);
    assert r[1] as int == PairValue(s[2], s[3]);
    assert r[2] as int == PairValue(s[4], s[5]);
    assert r[3] as int == PairValue(s[6], s[7]);
    assert |r| == 4 && r == [r[0], r[1], r[2], r[3]];
  }

  lemma DeadbeefDecode()
    ensures DecodeHex("deadbeef") == Success([0xDE, 0xAD, 0xBE, 0xEF])
  {
    DecodeFourPairs("deadbeef");
  }

  lemma CafebabeDecode()
    ensures DecodeHex("cafebabe") == Success([0xCA, 0xFE, 0xBA, 0xBE])
  {
    DecodeFourPairs("cafebabe");
  }

  lemma WordLinesDecode()
    ensures DecodeAll(["deadbeef", "cafebabe"]) == Success([[0xDE, 0xAD, 0xBE, 0xEF], [0xCA, 0xFE, 0xBA, 0xBE]])
  {
    DeadbeefDecode();
    CafebabeDecode();
    DecodeAllTwo("deadbeef", "cafebabe");
  }

  lemma WordLinesKept()
    ensures Kept(["deadbeef", "", "cafebabe"]) == ["deadbeef", "cafebabe"]
  {
    var lines := ["deadbeef", "", "cafebabe"];
    KeptTrimmedLast(lines);
    assert lines[..2] == ["deadbeef", ""] && ["deadbeef", ""][..1] == ["deadbeef"];
    assert Kept(["deadbeef", ""]) == Kept(["deadbeef"]);
    KeptTrimmedLast(["deadbeef"]);
    assert Kept(["deadbeef"]) == ["deadbeef"];
  }

  lemma WordRecords()
    ensures PackRecords(4, [[0xDE, 0xAD, 0xBE, 0xEF], [0xCA, 0xFE, 0xBA, 0xBE]]) ==
      Success([0, 0, 0, 4, 0, 0, 0, 2, 0xDE, 0xAD, 0xBE, 0xEF, 0xCA, 0xFE, 0xBA, 0xBE])
  {
    var x: seq<byte> := [0xDE, 0xAD, 0xBE, 0xEF];
    var y: seq<byte> := [0xCA, 0xFE, 0xBA, 0xBE];
    var rs: seq<seq<byte>> := [x, y];
    assert rs[1..][1..] == [];
    assert Flatten(rs) == x + y;
    var four: seq<byte> := [0, 0, 0, 4];
    var two: seq<byte> := [0, 0, 0, 2];
    assert EncodeU32BE(4) == four;
    assert EncodeU32BE(2) == two;
    assert four + two + (x + y) == [0, 0, 0, 4, 0, 0, 0, 2, 0xDE, 0xAD, 0xBE, 0xEF, 0xCA, 0xFE, 0xBA, 0xBE];
  }

  /**
   * Two 4-byte hashes with a blank line between them: the blank line is
   * skipped and the output is the header (4, 2) and the eight hash bytes.
   */
  lemma BlankLineScenario()
    ensures Pack(["deadbeef", "", "cafebabe"]) ==
      Success([0, 0, 0, 4, 0, 0, 0, 2, 0xDE, 0xAD, 0xBE, 0xEF, 0xCA, 0xFE, 0xBA, 0xBE])
  {
    var lines := ["deadbeef", "", "cafebabe"];
    WordLinesKept();
    WordLinesDecode();
    WordRecords();
    assert HashLen(lines) == 4;
  }

  /**
   * Surrounding spaces, line terminators and upper-case digits: " AA \n"
   * is kept as "AA", the line "\n" is blank and skipped, and the output is
   * the header (1, 1) and the byte AA.
   */
  lemma WhitespaceScenario()
    ensures Pack([" AA \n", "\n"]) == Success([0, 0, 0, 1, 0, 0, 0, 1, 0xAA])
  {
    var lines := [" AA \n", "\n"];
    WhitespaceKept();
    UpperDigitsDecode();
    OneRecord();
    assert HashLen(lines) == 1;
  }

  lemma WhitespaceKept()
    ensures Kept([" AA \n", "\n"]) == ["AA"]
  {
    var line: string := " AA \n";
    var blank: string := "\n";
    PaddedLineStrip();
    assert !AllSpace(line);
    assert AllSpace(blank) by { assert blank[0] == '\n'; }
    var none: seq<string> := [];
    KeptOtherLine(none, line, none);
    assert none + [line] + none == [line];
    KeptBlankLine([line], blank, none);
    assert [line] + [blank] + none == [line, blank];
  }

  lemma PaddedLineStrip()
    ensures Strip(" AA \n") == "AA"
  {
    var before: string := " ";
    var core: string := "AA";
    var after: string := " \n";
    assert AllSpace(after) by { assert after[0] == ' ' && after[1] == '\n'; }
    StripUnique(before, core, after);
    assert before + core + after == " AA \n";
  }

  lemma UpperDigitsDecode()
    ensures DecodeAll(["AA"]) == Success([[0xAA]])
  {
    DecodeTwoDigits('A', 'A');
    var x: seq<byte> := [0xAA];
    assert DecodeHex("AA") == Success(x);
    var none: seq<seq<byte>> := [];
    assert DecodeAll([]) == Success(none);
    DecodeAllSnoc([], "AA");
    assert [] + ["AA"] == ["AA"] && none + [x] == [x];
  }

  lemma OneRecord()
    ensures PackRecords(1, [[0xAA]]) == Success([0, 0, 0, 1, 0, 0, 0, 1, 0xAA])
  {
    var x: seq<byte> := [0xAA];
    var rs: seq<seq<byte>> := [x];
    assert rs[1..] == [];
    assert Flatten(rs) == x;
    var one: seq<byte> := [0, 0, 0, 1];
    assert EncodeU32BE(1) == one;
    assert one + one + x == [0, 0, 0, 1, 0, 0, 0, 1, 0xAA];
  }
}
