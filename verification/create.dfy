/**
 * The hash packer script: each input line is stripped, blank lines are
 * skipped, the rest are hex-decoded into records, and the output is an
 * 8-byte header (hash length, record count; both unsigned 32-bit
 * big-endian) followed by the records back to back.
 *
 * The pipeline is stated twice: as the staged functions Kept, HashLen,
 * DecodeAll and PackRecords composed by Pack, and as the method PackLines,
 * which follows the script's single loop (including its `hashlen == 0`
 * test) and is proved to compute Pack.
 *
 * A line is a byte string read one character per byte, each character
 * having that byte's code (0 to 255).
 */
module Create {
  import opened Results
  import opened Bytes
  import opened Whitespace
  import opened Hex

  /** Why no output was produced. */
  datatype PackError =
    | DecodeError(cause: HexError)   // a kept line is not valid hex
    | HeaderOverflow                 // a header field does not fit in 32 bits

  predicate AllBlank(lines: seq<string>) {
    forall i :: 0 <= i < |lines| ==> AllSpace(lines[i])
  }

  /**
   * The stripped, non-blank lines, in input order. Each is trimmed and
   * non-empty, and there are none exactly when every line is blank.
   */
  function Kept(lines: seq<string>): (ks: seq<string>)
    ensures |ks| <= |lines|
    ensures forall k :: 0 <= k < |ks| ==> ks[k] != [] && Trimmed(ks[k])
    ensures ks == [] <==> AllBlank(lines)
  {
    if lines == [] then []
    else
      var init := lines[..|lines| - 1];
      var t := Strip(lines[|lines| - 1]);
      assert forall i :: 0 <= i < |init| ==> init[i] == lines[i];
      if t == [] then Kept(init) else Kept(init) + [t]
  }

  /**
   * The record length the header announces: half the length of the first
   * kept line, or 0. It is 0 exactly when no line is kept or the first kept
   * line has a single character.
   */
  function HashLen(lines: seq<string>): (r: nat)
    ensures r == 0 <==> AllBlank(lines) || |Kept(lines)[0]| < 2
  {
    var ks := Kept(lines);
    if ks == [] then 0 else |ks[0]| / 2
  }

  /**
   * Decodes every kept line, in order. It succeeds exactly when every line
   * decodes, giving one record per line; otherwise it reports the error of
   * the first line that does not decode (DecodeAllFirstFailure).
   */
  function DecodeAll(ks: seq<string>): (r: Result<seq<seq<byte>>, HexError>)
    ensures r.Success? <==> forall k :: 0 <= k < |ks| ==> DecodeHex(ks[k]).Success?
    ensures r.Success? ==> |r.value| == |ks|
    ensures r.Success? ==> forall k :: 0 <= k < |ks| ==> DecodeHex(ks[k]) == Success(r.value[k])
  {
    if ks == [] then Success([])
    else
      var init := ks[..|ks| - 1];
      var last := ks[|ks| - 1];
      assert forall k :: 0 <= k < |init| ==> init[k] == ks[k];
      match DecodeAll(init)
      case Failure(e) => Failure(e)
      case Success(rs) =>
        match DecodeHex(last)
        case Failure(e) => Failure(e)
        case Success(b) => Success(rs + [b])
  }

  /** A failure is the error of the first line that does not decode: line k, all lines before it decoding. */
  lemma {:induction false} DecodeAllFirstFailure(ks: seq<string>) returns (k: nat)
    requires DecodeAll(ks).Failure?
    ensures k < |ks| && DecodeHex(ks[k]) == Failure(DecodeAll(ks).error)
    ensures forall j :: 0 <= j < k ==> DecodeHex(ks[j]).Success?
  {
    var init := ks[..|ks| - 1];
    if DecodeAll(init).Failure? {
      k := DecodeAllFirstFailure(init);
      assert ks[k] == init[k];
      assert forall j :: 0 <= j < k ==> ks[j] == init[j];
    } else {
      k := |ks| - 1;
      assert forall j :: 0 <= j < k ==> ks[j] == init[j];
    }
  }

  /** Total number of bytes in a list of records. */
  function SumLengths(rs: seq<seq<byte>>): (r: nat) {
    if rs == [] then 0 else |rs[0]| + SumLengths(rs[1..])
  }

  /** The records written back to back, with no delimiters. */
  function Flatten(rs: seq<seq<byte>>): (out: seq<byte>)
    ensures |out| == SumLengths(rs)
  {
    if rs == [] then [] else rs[0] + Flatten(rs[1..])
  }

  /**
   * The output for a record length and a list of records: the two header
   * fields, which read back as that length and the record count, then the
   * records back to back. Packing fails when either field needs 32 bits or
   * more.
   */
  function PackRecords(hashlen: nat, rs: seq<seq<byte>>): (r: Result<seq<byte>, PackError>)
    ensures r.Success? <==> FitsU32(hashlen) && FitsU32(|rs|)
    ensures r.Failure? ==> r.error == HeaderOverflow
    ensures r.Success? ==> |r.value| == 8 + SumLengths(rs)
    ensures r.Success? ==> DecodeU32BE(r.value[..4]) == hashlen && DecodeU32BE(r.value[4..8]) == |rs|
    ensures r.Success? ==> r.value[8..] == Flatten(rs)
  {
    if FitsU32(hashlen) && FitsU32(|rs|) then
      var out := EncodeU32BE(hashlen) + EncodeU32BE(|rs|) + Flatten(rs);
      assert out[..4] == EncodeU32BE(hashlen) && out[4..8] == EncodeU32BE(|rs|);
      Success(out)
    else
      Failure(HeaderOverflow)
  }

  /**
   * The whole conversion, from the lines of the input file to the bytes of
   * the output file. A decoding error stops it before anything is packed.
   */
  function Pack(lines: seq<string>): (r: Result<seq<byte>, PackError>)
    ensures r.Success? <==>
      (forall k :: 0 <= k < |Kept(lines)| ==> DecodeHex(Kept(lines)[k]).Success?)
      && FitsU32(HashLen(lines)) && FitsU32(|Kept(lines)|)
    ensures r.Failure? && r.error.DecodeError? <==>
      exists k :: 0 <= k < |Kept(lines)| && DecodeHex(Kept(lines)[k]).Failure?
  {
    match DecodeAll(Kept(lines))
    case Failure(e) => Failure(DecodeError(e))
    case Success(rs) => PackRecords(HashLen(lines), rs)
  }

  /** What the script's loop has built so far: the records, and the record length. */
  datatype Scan = Scan(hashes: seq<seq<byte>>, hashlen: nat)

  /**
   * The script's loop over the lines, read as a function of the lines read
   * so far; a decoding error ends the loop.
   */
  function ScanLines(lines: seq<string>): (r: Result<Scan, HexError>)
    ensures r.Success? ==> |r.value.hashes| <= |lines|
  {
    if lines == [] then Success(Scan([], 0))
    else
      match ScanLines(lines[..|lines| - 1])
      case Failure(e) => Failure(e)
      case Success(st) => ScanStep(st, lines[|lines| - 1])
  }

  /**
   * One pass of the loop body: a blank line is skipped; otherwise the
   * record length is set if it is still 0, and the decoded line is
   * appended, or its error is returned.
   */
  function ScanStep(st: Scan, raw: string): (r: Result<Scan, HexError>)
    ensures AllSpace(raw) ==> r == Success(st)
    ensures !AllSpace(raw) ==> (r.Success? <==> DecodeHex(Strip(raw)).Success?)
    ensures !AllSpace(raw) && r.Failure? ==> r.error == DecodeHex(Strip(raw)).error
    ensures !AllSpace(raw) && r.Success? ==> r.value.hashes == st.hashes + [DecodeHex(Strip(raw)).value]
    ensures r.Success? && st.hashlen != 0 ==> r.value.hashlen == st.hashlen
    ensures r.Success? && st.hashlen == 0 && !AllSpace(raw) ==> r.value.hashlen == |Strip(raw)| / 2
  {
    var line := Strip(raw);
    if line == [] then Success(st)
    else
      var hashlen := if st.hashlen == 0 then |line| / 2 else st.hashlen;
      match DecodeHex(line)
      case Failure(e) => Failure(e)
      case Success(b) => Success(Scan(st.hashes + [b], hashlen))
  }

  /** The script's loop and packing step, written as it is written there. */
  method PackLines(lines: seq<string>) returns (r: Result<seq<byte>, PackError>)
    ensures r == Pack(lines)
  {
    var hashes: seq<seq<byte>> := [];
    var hashlen: nat := 0;
    var i := 0;
    assert lines[..0] == [];
    while i < |lines|
      invariant i <= |lines|
      invariant ScanLines(lines[..i]) == Success(Scan(hashes, hashlen))
    {
      ScanLinesSnoc(lines, i);
      ghost var before := Scan(hashes, hashlen);
      var line := Strip(lines[i]);
      assert line == [] <==> AllSpace(lines[i]);
      if line != [] {
        if hashlen == 0 {
          hashlen := |line| / 2;
        }
        var decoded := DecodeHex(line);
        if decoded.Failure? {
          assert ScanStep(before, lines[i]) == Failure(decoded.error);
          ScanFailurePack(lines, i + 1);
          return Failure(DecodeError(decoded.error));
        }
        hashes := hashes + [decoded.value];
      }
      assert ScanStep(before, lines[i]) == Success(Scan(hashes, hashlen));
      assert ScanLines(lines[..i + 1]) == Success(Scan(hashes, hashlen));
      i := i + 1;
    }
    assert lines[..i] == lines;
    ScanSuccessPack(lines);
    if !FitsU32(hashlen) || !FitsU32(|hashes|) {
      return Failure(HeaderOverflow);
    }
    r := Success(EncodeU32BE(hashlen) + EncodeU32BE(|hashes|) + Flatten(hashes));
  }

  /** Over lines that are all blank, the loop keeps nothing and leaves `hashlen` at 0. */
  lemma {:induction false} ScanAllBlank(lines: seq<string>)
    requires AllBlank(lines)
    ensures ScanLines(lines) == Success(Scan([], 0))
  {
    if lines != [] {
      var init := lines[..|lines| - 1];
      assert AllBlank(init) by {
        forall k | 0 <= k < |init| ensures AllSpace(init[k]) {
          assert init[k] == lines[k];
        }
      }
      ScanAllBlank(init);
      assert AllSpace(lines[|lines| - 1]);
    }
  }

  /** The loop over one more line is one more pass of its body. */
  lemma ScanLinesSnoc(lines: seq<string>, i: nat)
    requires i < |lines| && ScanLines(lines[..i]).Success?
    ensures ScanLines(lines[..i + 1]) == ScanStep(ScanLines(lines[..i]).value, lines[i])
  {
    assert lines[..i + 1][..i] == lines[..i];
  }

  /** When the loop fails on the lines read so far, the conversion fails with that error. */
  lemma ScanFailurePack(lines: seq<string>, i: nat)
    requires i <= |lines| && ScanLines(lines[..i]).Failure?
    ensures Pack(lines) == Failure(DecodeError(ScanLines(lines[..i]).error))
  {
    ScanFailurePersists(lines[..i], lines[i..]);
    assert lines[..i] + lines[i..] == lines;
    ScanMatchesPipeline(lines);
  }

  /** When the loop gets through all lines, packing what it built is the conversion. */
  lemma ScanSuccessPack(lines: seq<string>)
    requires ScanLines(lines).Success?
    ensures var st := ScanLines(lines).value;
      Pack(lines) ==
        if FitsU32(st.hashlen) && FitsU32(|st.hashes|)
        then Success(EncodeU32BE(st.hashlen) + EncodeU32BE(|st.hashes|) + Flatten(st.hashes))
        else Failure(HeaderOverflow)
  {
    ScanMatchesPipeline(lines);
  }

  /** Once a line fails to decode, the lines after it do not change the error. */
  lemma {:induction false} ScanFailurePersists(a: seq<string>, b: seq<string>)
    requires ScanLines(a).Failure?
    ensures ScanLines(a + b) == ScanLines(a)
    decreases |b|
  {
    if b == [] {
      assert a + b == a;
    } else {
      var init := b[..|b| - 1];
      assert (a + b)[..|a + b| - 1] == a + init;
      ScanFailurePersists(a, init);
    }
  }

  /**
   * The loop computes the staged pipeline: it fails with the error of the
   * first kept line that does not decode, and otherwise ends with the
   * records of all kept lines and half the length of the first of them.
   * In particular, the loop's `hashlen == 0` test is the same as "no line
   * has been kept yet", because a kept line that decodes has at least two
   * characters.
   */
  lemma {:induction false} ScanMatchesPipeline(lines: seq<string>)
    ensures DecodeAll(Kept(lines)).Failure? ==> ScanLines(lines) == Failure(DecodeAll(Kept(lines)).error)
    ensures DecodeAll(Kept(lines)).Success? ==>
      ScanLines(lines) == Success(Scan(DecodeAll(Kept(lines)).value, HashLen(lines)))
    ensures DecodeAll(Kept(lines)).Success? ==> (HashLen(lines) == 0 <==> Kept(lines) == [])
  {
    ScanAgreesAll(lines);
  }

  /** The loop's state after `lines` agrees with the staged pipeline on them. */
  predicate ScanAgrees(lines: seq<string>) {
    match DecodeAll(Kept(lines))
    case Failure(e) => ScanLines(lines) == Failure(e)
    case Success(rs) =>
      && ScanLines(lines) == Success(Scan(rs, HashLen(lines)))
      && (HashLen(lines) == 0 <==> Kept(lines) == [])
  }

  lemma {:induction false} ScanAgreesAll(lines: seq<string>)
    ensures ScanAgrees(lines)
  {
    if lines != [] {
      ScanAgreesAll(lines[..|lines| - 1]);
      ScanAgreesStep(lines);
    }
  }

  /** Agreement survives one more line. */
  lemma ScanAgreesStep(lines: seq<string>)
    requires lines != [] && ScanAgrees(lines[..|lines| - 1])
    ensures ScanAgrees(lines)
  {
    var init := lines[..|lines| - 1];
    var ks := Kept(init);
    var line := Strip(lines[|lines| - 1]);
    if line == [] {
      assert Kept(lines) == ks && HashLen(lines) == HashLen(init);
    } else if DecodeAll(ks).Failure? {
      DecodeAllFailureSnoc(ks, line);
    } else {
      ScanAgreesKept(lines);
    }
  }

  /** Agreement survives a line that is kept after lines that all decode. */
  lemma ScanAgreesKept(lines: seq<string>)
    requires lines != [] && ScanAgrees(lines[..|lines| - 1])
    requires Strip(lines[|lines| - 1]) != [] && DecodeAll(Kept(lines[..|lines| - 1])).Success?
    ensures ScanAgrees(lines)
  {
    var init := lines[..|lines| - 1];
    var ks := Kept(init);
    var line := Strip(lines[|lines| - 1]);
    var rs := DecodeAll(ks).value;
    assert Kept(lines) == ks + [line];
    assert ScanLines(init) == Success(Scan(rs, HashLen(init)));
    assert HashLen(lines) == if ks == [] then |line| / 2 else HashLen(init);
    DecodeAllSnoc(ks, line);
    if DecodeHex(line).Success? && ks == [] {
      assert |line| % 2 == 0;
    }
  }

  /** One more kept line after lines that all decode: its record is appended, or its error returned. */
  lemma DecodeAllSnoc(ks: seq<string>, line: string)
    requires DecodeAll(ks).Success?
    ensures DecodeAll(ks + [line]) ==
      match DecodeHex(line)
      case Failure(e) => Failure(e)
      case Success(b) => Success(DecodeAll(ks).value + [b])
  {
    assert (ks + [line])[..|ks|] == ks;
  }

  /** Once a kept line fails to decode, more lines do not change the error. */
  lemma DecodeAllFailureSnoc(ks: seq<string>, line: string)
    requires DecodeAll(ks).Failure?
    ensures DecodeAll(ks + [line]) == DecodeAll(ks)
  {
    assert (ks + [line])[..|ks|] == ks;
  }

  /** Kept works line by line: the kept lines of a concatenation are those of each part. */
  lemma {:induction false} KeptConcat(a: seq<string>, b: seq<string>)
    ensures Kept(a + b) == Kept(a) + Kept(b)
    decreases |b|
  {
    if b == [] {
      assert a + b == a;
    } else {
      var init := b[..|b| - 1];
      assert (a + b)[..|a + b| - 1] == a + init;
      KeptConcat(a, init);
    }
  }

  /** A line that is blank after stripping contributes no record. */
  lemma KeptBlankLine(a: seq<string>, line: string, b: seq<string>)
    requires AllSpace(line)
    ensures Kept(a + [line] + b) == Kept(a + b)
  {
    KeptConcat(a + [line], b);
    KeptConcat(a, [line]);
    KeptConcat(a, b);
    assert [line][..0] == [];
  }

  /** Any other line contributes its stripped text, in its place. */
  lemma KeptOtherLine(a: seq<string>, line: string, b: seq<string>)
    requires !AllSpace(line)
    ensures Kept(a + [line] + b) == Kept(a) + [Strip(line)] + Kept(b)
  {
    KeptConcat(a + [line], b);
    KeptConcat(a, [line]);
    assert [line][..0] == [];
  }

  /**
   * The record length is half the length (rounded down) of the first line
   * that is not blank, whatever follows it.
   */
  lemma HashLenFirstLine(lines: seq<string>, i: nat)
    requires i < |lines| && AllBlank(lines[..i]) && !AllSpace(lines[i])
    ensures HashLen(lines) == |Strip(lines[i])| / 2
  {
    assert lines == lines[..i] + [lines[i]] + lines[i + 1..];
    KeptOtherLine(lines[..i], lines[i], lines[i + 1..]);
  }

  /** Flatten of a concatenation is the concatenation of the Flattens. */
  lemma {:induction false} FlattenConcat(a: seq<seq<byte>>, b: seq<seq<byte>>)
    ensures Flatten(a + b) == Flatten(a) + Flatten(b)
  {
    if a == [] {
      assert a + b == b;
    } else {
      assert (a + b)[1..] == a[1..] + b;
      FlattenConcat(a[1..], b);
    }
  }

  /**
   * Record k sits in the flattened records right after records 0 to k-1,
   * with nothing in between: they appear in order and without delimiters.
   */
  lemma RecordAt(rs: seq<seq<byte>>, k: nat)
    requires k < |rs|
    ensures var off := SumLengths(rs[..k]);
      off + |rs[k]| <= |Flatten(rs)| && Flatten(rs)[off..off + |rs[k]|] == rs[k]
  {
    assert rs == rs[..k] + ([rs[k]] + rs[k + 1..]);
    FlattenConcat(rs[..k], [rs[k]] + rs[k + 1..]);
  }

  /** Records of one common length m take up exactly |rs| * m bytes. */
  lemma {:induction false} SumLengthsUniform(rs: seq<seq<byte>>, m: nat)
    requires forall k :: 0 <= k < |rs| ==> |rs[k]| == m
    ensures SumLengths(rs) == |rs| * m
  {
    if rs != [] {
      SumLengthsUniform(rs[1..], m);
    }
  }
}
