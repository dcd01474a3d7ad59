/**
 * The output file format and what Pack promises about it: the header
 * layout, the output length, the all-blank input, and the round trip
 * through a reader of the format.
 *
 * Unpack is that reader: it parses the header and cuts the body into
 * records. The script has none; it is defined here to state what a
 * consumer of the file can get back.
 */
module Format {
  import opened Results
  import opened Bytes
  import opened Whitespace
  import opened Hex
  import opened Create

  /** All pairs of kept lines have the same length. */
  predicate SameLength(ks: seq<string>) {
    forall j, k :: 0 <= j < |ks| && 0 <= k < |ks| ==> |ks[j]| == |ks[k]|
  }

  /** Cuts `body` into `n` consecutive chunks of `len` bytes. */
  function Chunks(body: seq<byte>, len: nat, n: nat): (rs: seq<seq<byte>>)
    requires |body| == len * n
    ensures |rs| == n
    ensures forall k :: 0 <= k < n ==> |rs[k]| == len
    ensures Flatten(rs) == body
  {
    if n == 0 then []
    else
      assert len * n == len + len * (n - 1);
      var rest := Chunks(body[len..], len, n - 1);
      assert ([body[..len]] + rest)[1..] == rest;
      [body[..len]] + rest
  }

  /**
   * Reads an output file back: the record length and count from the
   * header, then that many records of that length. None when the file is
   * shorter than the header or the body does not hold exactly the records
   * the header announces.
   */
  function Unpack(out: seq<byte>): (r: Option<(nat, seq<seq<byte>>)>)
    ensures r.Some? ==> 8 <= |out| && r.value.0 == DecodeU32BE(out[..4]) && |r.value.1| == DecodeU32BE(out[4..8])
    ensures r.Some? ==> Flatten(r.value.1) == out[8..]
  {
    if |out| < 8 then None
    else
      var hashlen := DecodeU32BE(out[..4]);
      var count := DecodeU32BE(out[4..8]);
      if |out| - 8 != hashlen * count then None
      else Some((hashlen, Chunks(out[8..], hashlen, count)))
  }

  /** Chunking the records of one common length gives the records back. */
  lemma {:induction false} ChunksFlatten(rs: seq<seq<byte>>, len: nat)
    requires forall k :: 0 <= k < |rs| ==> |rs[k]| == len
    ensures |Flatten(rs)| == len * |rs|
    ensures Chunks(Flatten(rs), len, |rs|) == rs
  {
    SumLengthsUniform(rs, len);
    if rs != [] {
      ChunksFlatten(rs[1..], len);
      var body := Flatten(rs);
      assert body[..len] == rs[0];
      assert body[len..] == Flatten(rs[1..]);
      assert [rs[0]] + rs[1..] == rs;
    }
  }

  /** A packer output whose records share the announced length reads back as those records. */
  lemma UnpackPackRecords(hashlen: nat, rs: seq<seq<byte>>)
    requires FitsU32(hashlen) && FitsU32(|rs|)
    requires forall k :: 0 <= k < |rs| ==> |rs[k]| == hashlen
    ensures PackRecords(hashlen, rs).Success?
    ensures Unpack(PackRecords(hashlen, rs).value) == Some((hashlen, rs))
  {
    var out := PackRecords(hashlen, rs).value;
    ChunksFlatten(rs, hashlen);
    assert |out| - 8 == hashlen * |rs|;
  }

  /**
   * Header layout and output length: bytes 0-3 are the record length and
   * bytes 4-7 the number of kept lines, both unsigned 32-bit big-endian;
   * then come the records, record k being the decoding of kept line k, of
   * half its length, and the output is 8 bytes longer than the records.
   */
  lemma PackLayout(lines: seq<string>, out: seq<byte>)
    requires Pack(lines) == Success(out)
    ensures DecodeAll(Kept(lines)).Success?
    ensures var rs := DecodeAll(Kept(lines)).value;
      && |out| == 8 + SumLengths(rs)
      && out[..4] == EncodeU32BE(HashLen(lines))
      && out[4..8] == EncodeU32BE(|Kept(lines)|)
      && out[8..] == Flatten(rs)
      && |rs| == |Kept(lines)|
      && forall k :: 0 <= k < |rs| ==> DecodeHex(Kept(lines)[k]) == Success(rs[k]) && |rs[k]| == |Kept(lines)[k]| / 2
  {
    EncodeDecodeU32(out[..4]);
    EncodeDecodeU32(out[4..8]);
  }

  /**
   * When every kept line has the same length L, the output is 8 + N * (L/2)
   * bytes for N kept lines, and the header reads back as (L/2, N), or
   * (0, 0) when no line is kept.
   */
  lemma PackUniformLength(lines: seq<string>, out: seq<byte>, len: nat)
    requires Pack(lines) == Success(out)
    requires forall k :: 0 <= k < |Kept(lines)| ==> |Kept(lines)[k]| == len
    ensures |out| == 8 + |Kept(lines)| * (len / 2)
    ensures DecodeU32BE(out[4..8]) == |Kept(lines)|
    ensures DecodeU32BE(out[..4]) == if Kept(lines) == [] then 0 else len / 2
  {
    PackLayout(lines, out);
    var rs := DecodeAll(Kept(lines)).value;
    SumLengthsUniform(rs, len / 2);
  }

  /** With no line that is not blank, the output is the header (0, 0) alone: eight zero bytes. */
  lemma PackAllBlank(lines: seq<string>)
    requires AllBlank(lines)
    ensures Pack(lines) == Success([0, 0, 0, 0, 0, 0, 0, 0])
  {
    assert Kept(lines) == [];
    assert DecodeAll([]) == Success([]);
    assert HashLen(lines) == 0;
    assert EncodeU32BE(0) == [0, 0, 0, 0];
    var zeros: seq<byte> := [0, 0, 0, 0];
    assert PackRecords(0, []) == Success(zeros + zeros + []);
    assert zeros + zeros + [] == [0, 0, 0, 0, 0, 0, 0, 0];
  }

  /**
   * The round trip: when all kept lines have the same length, reading the
   * output back gives the announced length and one record per kept line,
   * in input order, and each record re-encoded as hex is its line in lower
   * case.
   */
  lemma PackRoundTrip(lines: seq<string>, out: seq<byte>)
    requires Pack(lines) == Success(out)
    requires SameLength(Kept(lines))
    ensures Unpack(out).Some?
    ensures Unpack(out).value.0 == HashLen(lines)
    ensures |Unpack(out).value.1| == |Kept(lines)|
    ensures forall k :: 0 <= k < |Kept(lines)| ==> EncodeHex(Unpack(out).value.1[k]) == LowerCase(Kept(lines)[k])
  {
    var ks := Kept(lines);
    var rs := DecodeAll(ks).value;
    assert forall k :: 0 <= k < |rs| ==> |rs[k]| == HashLen(lines) by {
      forall k | 0 <= k < |rs| ensures |rs[k]| == HashLen(lines) {
        assert |ks[k]| == |ks[0]|;
      }
    }
    UnpackPackRecords(HashLen(lines), rs);
    forall k | 0 <= k < |ks| ensures EncodeHex(rs[k]) == LowerCase(ks[k]) {
      EncodeDecodeHex(ks[k], rs[k]);
    }
  }
}
