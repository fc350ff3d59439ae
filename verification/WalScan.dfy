/** Segment files: a header, then records one after another. Scanning keeps the records up to the first one
    that does not decode and cuts the file there. */
module WalScan {
  import opened Bytes
  import opened BigEndian
  import opened WalCodec

  const SEGMENT_MAGIC: seq<Byte> := [79, 70, 87, 76]

  const SEGMENT_HEADER_SIZE: nat := 16

  const SEGMENT_VERSION: nat := 1

  function SegmentHeader(version: nat, length: nat, reserved: seq<Byte>): (h: seq<Byte>)
    requires |reserved| == 8
    ensures |h| == SEGMENT_HEADER_SIZE
  {
    SEGMENT_MAGIC + Encoded(version, 2) + Encoded(length, 2) + reserved
  }

  function DefaultHeader(): (h: seq<Byte>)
    ensures |h| == SEGMENT_HEADER_SIZE
  {
    SegmentHeader(SEGMENT_VERSION, SEGMENT_HEADER_SIZE, Zeros(8))
  }

  /** Where a file's records start. A file without a segment header starts with a record, and is accepted only
      on request. */
  function ReadHeader(file: seq<Byte>, unversioned: bool): Result<nat> {
    if file == [] then Err(Eof)
    else if |file| < 4 then Err(Truncated)
    else if file[..4] == SEGMENT_MAGIC then
      if |file| < SEGMENT_HEADER_SIZE then Err(Truncated)
      else if Decoded(file[4..6]) > SEGMENT_VERSION then Err(UnsupportedVersion)
      else if Decoded(file[6..8]) < 8 then Err(BadHeaderLength)
      else Ok(Decoded(file[6..8]))
    else if file[..4] == Magic(Client) || file[..4] == Magic(Log) then
      if unversioned then Ok(0) else Err(Unversioned)
    else Err(BadMagic)
  }

  lemma HeaderReads(version: nat, length: nat, reserved: seq<Byte>, rest: seq<Byte>, unversioned: bool)
    requires |reserved| == 8 && version < Pow256(2) && length < Pow256(2)
    ensures ReadHeader(SegmentHeader(version, length, reserved) + rest, unversioned) ==
            if version > SEGMENT_VERSION then Err(UnsupportedVersion) else if length < 8 then Err(BadHeaderLength)
               else Ok(length)
  {
    hide Encoded, Decoded;
    var file := SegmentHeader(version, length, reserved) + rest;
    assert file[..4] == SEGMENT_MAGIC;
    assert file[4..6] == Encoded(version, 2);
    assert file[6..8] == Encoded(length, 2);
    DecodedEncoded(version, 2);
    DecodedEncoded(length, 2);
  }

  // ----- records in a row -----

  /** A record as it is after encoding: stamped with its own checksum. */
  predicate Stamped(crc: Crc, kind: Kind, r: Record) {
    WellFormed(kind, r) && |r.payload| < Pow256(4) && r.crc == Checksum(crc, kind, r)
  }

  function Enc(crc: Crc, kind: Kind, r: Record): (b: seq<Byte>)
    requires Stamped(crc, kind, r)
    ensures |b| == HeaderLen(kind) + |r.payload|
  {
    Encode(crc, kind, r)
  }

  predicate AllStamped(crc: Crc, kind: Kind, rs: seq<Record>) {
    forall i | 0 <= i < |rs| :: Stamped(crc, kind, rs[i])
  }

  function EncodeAll(crc: Crc, kind: Kind, rs: seq<Record>): seq<Byte>
    requires AllStamped(crc, kind, rs)
  {
    if rs == [] then [] else Enc(crc, kind, rs[0]) + EncodeAll(crc, kind, rs[1..])
  }

  lemma {:induction false} EncodeAllConcat(crc: Crc, kind: Kind, a: seq<Record>, b: seq<Record>)
    requires AllStamped(crc, kind, a) && AllStamped(crc, kind, b)
    ensures AllStamped(crc, kind, a + b)
            && EncodeAll(crc, kind, a + b) == EncodeAll(crc, kind, a) + EncodeAll(crc, kind, b)
    decreases |a|
  {
    hide Enc, Stamped;
    if a == [] {
      assert a + b == b;
    } else {
      EncodeAllConcat(crc, kind, a[1..], b);
      assert (a + b)[1..] == a[1..] + b;
    }
  }

  /** How far one record reaches. */
  function Next(kind: Kind, r: Record): (n: nat)
    ensures n > 0
  {
    HeaderLen(kind) + |r.payload|
  }

  /** What decodes is the encoding of the record it decodes to. */
  lemma DecodedBytes(crc: Crc, kind: Kind, body: seq<Byte>)
    requires Decode(crc, kind, body).Ok?
    ensures var r := Decode(crc, kind, body).value;
            Stamped(crc, kind, r) && Next(kind, r) <= |body| && body[..Next(kind, r)] == Enc(crc, kind, r)
  {
    EncodeDecode(crc, kind, body);
  }

  lemma StampedDecode(crc: Crc, kind: Kind, r: Record, rest: seq<Byte>)
    requires Stamped(crc, kind, r)
    ensures Decode(crc, kind, Enc(crc, kind, r) + rest) == Ok(r)
  {
    DecodeEncode(crc, kind, r, rest);
  }

  lemma StampedCut(crc: Crc, kind: Kind, r: Record, k: nat)
    requires Stamped(crc, kind, r) && k < |Enc(crc, kind, r)|
    ensures Decode(crc, kind, Enc(crc, kind, r)[..k]).Err?
  {
    DecodeCut(crc, kind, r, k);
  }

  /** The records that decode one after another from the front of `body`. */
  function Good(crc: Crc, kind: Kind, body: seq<Byte>): (rs: seq<Record>)
    ensures AllStamped(crc, kind, rs)
    decreases |body|
  {
    hide Stamped, Decode;
    var r := Decode(crc, kind, body);
    if r.Err? then [] else
    DecodedBytes(crc, kind, body);
    [r.value] + Good(crc, kind, body[Next(kind, r.value)..])
  }

  /** Their bytes are the bytes read. */
  lemma {:induction false} GoodBytes(crc: Crc, kind: Kind, body: seq<Byte>)
    ensures EncodeAll(crc, kind, Good(crc, kind, body)) <= body
    decreases |body|
  {
    hide Stamped, Enc, Decode, Next;
    var r := Decode(crc, kind, body);
    if r.Ok? {
      DecodedBytes(crc, kind, body);
      var n := Next(kind, r.value);
      GoodBytes(crc, kind, body[n..]);
      EncodeAllFirst(crc, kind, r.value, Good(crc, kind, body[n..]));
      assert body == body[..n] + body[n..];
    }
  }

  lemma EncodeAllFirst(crc: Crc, kind: Kind, r: Record, rs: seq<Record>)
    requires Stamped(crc, kind, r) && AllStamped(crc, kind, rs)
    ensures AllStamped(crc, kind, [r] + rs)
            && EncodeAll(crc, kind, [r] + rs) == Enc(crc, kind, r) + EncodeAll(crc, kind, rs)
  {
    hide Stamped, Enc;
    assert ([r] + rs)[1..] == rs;
  }

  function GoodLen(crc: Crc, kind: Kind, body: seq<Byte>): (n: nat)
    ensures n <= |body|
  {
    GoodBytes(crc, kind, body);
    |EncodeAll(crc, kind, Good(crc, kind, body))|
  }

  /** Reading stops where the next record does not decode. */
  lemma GoodStep(crc: Crc, kind: Kind, body: seq<Byte>)
    ensures var r := Decode(crc, kind, body);
            if r.Err? then Good(crc, kind, body) == [] && GoodLen(crc, kind, body) == 0
            else
              && Next(kind, r.value) <= |body|
              && Good(crc, kind, body) == [r.value] + Good(crc, kind, body[Next(kind, r.value)..])
              && GoodLen(crc, kind, body) == Next(kind, r.value) + GoodLen(crc, kind, body[Next(kind, r.value)..])
  {
    hide Stamped, Decode, Enc;
    var r := Decode(crc, kind, body);
    if r.Ok? {
      DecodedBytes(crc, kind, body);
      EncodeAllFirst(crc, kind, r.value, Good(crc, kind, body[Next(kind, r.value)..]));
    }
  }

  /** Of records cut off at `k`, exactly the `m` that lie wholly before the cut are read. */
  lemma {:induction false} GoodOfCut(crc: Crc, kind: Kind, rs: seq<Record>, k: nat, m: nat)
    requires AllStamped(crc, kind, rs) && k <= |EncodeAll(crc, kind, rs)| && m <= |rs|
    requires |EncodeAll(crc, kind, rs[..m])| <= k
    requires m < |rs| ==> k < |EncodeAll(crc, kind, rs[..m + 1])|
    ensures Good(crc, kind, EncodeAll(crc, kind, rs)[..k]) == rs[..m]
    decreases |rs|
  {
    hide Enc, Stamped, Decode, Good, GoodLen, WellFormed;
    if rs == [] {
      assert EncodeAll(crc, kind, rs)[..k] == [];
      EmptyDecode(crc, kind);
      GoodStep(crc, kind, []);
    } else {
      var r, rest, first := rs[0], rs[1..], Enc(crc, kind, rs[0]);
      if m == 0 {
        assert rs[..1] == [r] + [];
        EncodeAllFirst(crc, kind, r, []);
        assert EncodeAll(crc, kind, rs)[..k] == first[..k];
        StampedCut(crc, kind, r, k);
        GoodStep(crc, kind, first[..k]);
      } else {
        assert rs[..m] == [r] + rest[..m - 1];
        EncodeAllFirst(crc, kind, r, rest[..m - 1]);
        if m < |rs| {
          assert rs[..m + 1] == [r] + rest[..m];
          EncodeAllFirst(crc, kind, r, rest[..m]);
        }
        var tail := EncodeAll(crc, kind, rest)[..k - |first|];
        assert EncodeAll(crc, kind, rs)[..k] == first + tail;
        StampedDecode(crc, kind, r, tail);
        assert (first + tail)[|first|..] == tail;
        GoodStep(crc, kind, first + tail);
        GoodOfCut(crc, kind, rest, k - |first|, m - 1);
      }
    }
  }

  lemma EmptyDecode(crc: Crc, kind: Kind)
    ensures Decode(crc, kind, []).Err?
  {
  }

  /** There always is such an `m`. */
  function WholeBefore(crc: Crc, kind: Kind, rs: seq<Record>, k: nat): (m: nat)
    requires AllStamped(crc, kind, rs)
    ensures m <= |rs| && |EncodeAll(crc, kind, rs[..m])| <= k
    ensures m < |rs| ==> k < |EncodeAll(crc, kind, rs[..m + 1])|
  {
    hide Stamped, EncodeAll, Enc;
    NoBytes(crc, kind);
    assert rs[..|rs|] == rs;
    if |EncodeAll(crc, kind, rs)| <= k then |rs| else
    var m := WholeBefore(crc, kind, rs[..|rs| - 1], k);
    Prefixes(rs, |rs| - 1, m);
    m
  }

  lemma Prefixes<T>(s: seq<T>, n: nat, m: nat)
    requires m <= n <= |s|
    ensures s[..n][..m] == s[..m] && (m < n ==> s[..n][..m + 1] == s[..m + 1])
  {
  }

  lemma NoBytes(crc: Crc, kind: Kind)
    ensures EncodeAll(crc, kind, []) == []
  {
  }

  /** Uncut records are all read back. */
  lemma GoodOfAll(crc: Crc, kind: Kind, rs: seq<Record>)
    requires AllStamped(crc, kind, rs)
    ensures Good(crc, kind, EncodeAll(crc, kind, rs)) == rs
  {
    hide Good, EncodeAll, Stamped;
    var b := EncodeAll(crc, kind, rs);
    assert rs[..|rs|] == rs && b[..|b|] == b;
    GoodOfCut(crc, kind, rs, |b|, |rs|);
  }

  /** A record stamped with another checksum ends the reading: neither it nor what follows is found. */
  lemma {:induction false} WrongStampEnds(crc: Crc, kind: Kind, rs: seq<Record>, r: Record, rest: seq<Byte>)
    requires AllStamped(crc, kind, rs) && WellFormed(kind, r) && |r.payload| < Pow256(4)
    requires Stamp(crc, kind, r) != Checksum(crc, kind, r)
    ensures Good(crc, kind, EncodeAll(crc, kind, rs) + (Encode(crc, kind, r) + rest)) == rs
    decreases |rs|
  {
    hide Enc, Stamped, Decode, Good, GoodLen, WellFormed, Encode, Stamp, Checksum;
    var tail := Encode(crc, kind, r) + rest;
    var body := EncodeAll(crc, kind, rs) + tail;
    if rs == [] {
      assert body == tail;
      DecodeEncode(crc, kind, r, rest);
    } else {
      var first, more := Enc(crc, kind, rs[0]), EncodeAll(crc, kind, rs[1..]) + tail;
      assert body == first + more && body[|first|..] == more;
      StampedDecode(crc, kind, rs[0], more);
      WrongStampEnds(crc, kind, rs[1..], r, rest);
    }
    GoodStep(crc, kind, body);
  }

  // ----- scanning a file -----

  /** What `size` names is how far the file is valid; `first` and `last` are zero when there are no records. */
  datatype Meta = Meta(size: nat, count: nat, first: nat, last: nat)

  function KeyOf(kind: Kind, r: Record): nat {
    if kind == Client then r.number else r.position
  }

  function MetaOf(kind: Kind, rs: seq<Record>, size: nat): Meta {
    Meta(size, |rs|, if rs == [] then 0 else KeyOf(kind, rs[0]), if rs == [] then 0 else KeyOf(kind, rs[|rs| - 1]))
  }

  function Body(file: seq<Byte>, off: nat): seq<Byte> {
    if off <= |file| then file[off..] else []
  }

  /** The records a scan returns. */
  function Scanned(crc: Crc, kind: Kind, file: seq<Byte>, unversioned: bool): Result<seq<Record>> {
    var off := ReadHeader(file, unversioned);
    if off.Ok? then Ok(Good(crc, kind, Body(file, off.value))) else if off == Err(Eof) then Ok([]) else Err(off.error)
  }

  /** The file a scan leaves. */
  function Retained(crc: Crc, kind: Kind, file: seq<Byte>, unversioned: bool): (kept: seq<Byte>)
    ensures kept <= file
  {
    var off := ReadHeader(file, unversioned);
    if off.Err? || off.value > |file| then file else file[..off.value + GoodLen(crc, kind, Body(file, off.value))]
  }

  /** Read the records of a segment file; cut the file after the last one when what follows does not decode. */
  method Scan(crc: Crc, kind: Kind, file: seq<Byte>, unversioned: bool)
      returns (r: Result<(seq<Record>, Meta)>, after: seq<Byte>)
    ensures r.Ok? <==> Scanned(crc, kind, file, unversioned).Ok?
    ensures r.Err? ==> r.error == Scanned(crc, kind, file, unversioned).error
    ensures after == Retained(crc, kind, file, unversioned)
    ensures r.Ok? ==> r.value.0 == Scanned(crc, kind, file, unversioned).value
    ensures r.Ok? ==> var off := ReadHeader(file, unversioned);
                      r.value.1 == MetaOf(kind, r.value.0, if off.Err? then 0
                          else off.value + |EncodeAll(crc, kind, r.value.0)|)
  {
    hide Good, EncodeAll, ReadHeader, Stamped, WellFormed;
    after := file;
    var header := ReadHeader(file, unversioned);
    if header.Err? {
      return if header.error == Eof then Ok(([], Meta(0, 0, 0, 0))) else Err(header.error), after;
    }
    var rs, valid, torn := ScanBody(crc, kind, file, header.value);
    if torn {
      after := file[..valid];
    }
    r := Ok((rs,
          Meta(valid, |rs|, if rs == [] then 0 else KeyOf(kind, rs[0]), if rs == [] then 0
              else KeyOf(kind, rs[|rs| - 1]))));
  }

  /** The scan loop: decode until the end of the file or a record that does not. */
  method ScanBody(crc: Crc, kind: Kind, file: seq<Byte>, from: nat) returns (rs: seq<Record>, valid: nat, torn: bool)
    ensures rs == Good(crc, kind, Body(file, from)) && valid == from + GoodLen(crc, kind, Body(file, from))
    ensures torn <==> valid < |file|
  {
    hide Good, Decode, Next, GoodLen, Stamped, AllStamped, WellFormed, Body, HeaderLen;
    rs, valid, torn := [], from, false;
    while true
      invariant from <= valid && (valid <= |file| || valid == from)
      invariant Good(crc, kind, Body(file, from)) == rs + Good(crc, kind, Body(file, valid))
      invariant GoodLen(crc, kind, Body(file, from)) == valid - from + GoodLen(crc, kind, Body(file, valid))
      decreases |Body(file, valid)|
    {
      var d := Decode(crc, kind, Body(file, valid));
      GoodStep(crc, kind, Body(file, valid));
      if d.Err? {
        EndsAtEof(crc, kind, Body(file, valid));
        BodyEnds(file, valid);
        torn := d.error != Eof;
        break;
      }
      rs := rs + [d.value];
      BodyStep(file, valid, Next(kind, d.value));
      valid := valid + Next(kind, d.value);
    }
  }

  lemma BodyStep(file: seq<Byte>, at: nat, n: nat)
    requires 0 < n <= |Body(file, at)|
    ensures at + n <= |file| && Body(file, at)[n..] == Body(file, at + n)
    ensures |Body(file, at + n)| < |Body(file, at)|
  {
  }

  lemma BodyEnds(file: seq<Byte>, at: nat)
    ensures Body(file, at) == [] <==> |file| <= at
  {
  }

  lemma EndsAtEof(crc: Crc, kind: Kind, body: seq<Byte>)
    ensures Decode(crc, kind, body) == Err(Eof) <==> body == []
  {
  }

  /** Arbitrary bytes after any header: what is kept of them is the encoding of what was returned. */
  lemma RetainedIsEncoding(crc: Crc, kind: Kind, file: seq<Byte>, unversioned: bool)
    requires ReadHeader(file, unversioned).Ok? && ReadHeader(file, unversioned).value <= |file|
    ensures var off := ReadHeader(file, unversioned).value;
            Retained(crc, kind, file, unversioned) == file[..off] + EncodeAll(crc, kind,
                Scanned(crc, kind, file, unversioned).value)
  {
    hide Good, EncodeAll, ReadHeader;
    var off := ReadHeader(file, unversioned).value;
    var body := Body(file, off);
    GoodBytes(crc, kind, body);
    assert file[..off + GoodLen(crc, kind, body)] == file[..off] + body[..GoodLen(crc, kind, body)];
  }

  /** Appended records, and any cut of the file at or after its header: the scan returns exactly the records
      wholly before the cut and leaves the file ending with them. */
  lemma ScanOfCut(crc: Crc, kind: Kind, rs: seq<Record>, k: nat, unversioned: bool)
    requires AllStamped(crc, kind, rs) && SEGMENT_HEADER_SIZE <= k <= SEGMENT_HEADER_SIZE + |EncodeAll(crc, kind, rs)|
    ensures var file, m := (DefaultHeader() + EncodeAll(crc, kind, rs))[..k],
        WholeBefore(crc, kind, rs, k - SEGMENT_HEADER_SIZE);
            && Scanned(crc, kind, file, unversioned) == Ok(rs[..m])
            && Retained(crc, kind, file, unversioned) == DefaultHeader() + EncodeAll(crc, kind, rs[..m])
  {
    hide Good, EncodeAll, WholeBefore, ReadHeader, DefaultHeader, Retained;
    var h, e := DefaultHeader(), EncodeAll(crc, kind, rs);
    var file, m := (h + e)[..k], WholeBefore(crc, kind, rs, k - |h|);
    assert file == h + e[..k - |h|];
    DefaultReads(e[..k - |h|], unversioned);
    assert Body(file, |h|) == e[..k - |h|];
    GoodOfCut(crc, kind, rs, k - |h|, m);
    RetainedIsEncoding(crc, kind, file, unversioned);
    assert file[..|h|] == h;
  }

  lemma DefaultReads(rest: seq<Byte>, unversioned: bool)
    ensures ReadHeader(DefaultHeader() + rest, unversioned) == Ok(SEGMENT_HEADER_SIZE)
  {
    Widths();
    HeaderReads(SEGMENT_VERSION, SEGMENT_HEADER_SIZE, Zeros(8), rest, unversioned);
  }

  /** A second scan changes nothing, unless the header declares a length of 8 to 15: the first scan then may
      cut into the header itself, and the second refuses the file. */
  lemma ScanTwice(crc: Crc, kind: Kind, file: seq<Byte>, unversioned: bool)
    requires ReadHeader(file, unversioned).Ok?
    ensures var off, kept := ReadHeader(file, unversioned).value, Retained(crc, kind, file, unversioned);
            var again := Scanned(crc, kind, kept, unversioned);
            again == Scanned(crc, kind, file, unversioned) && Retained(crc, kind, kept, unversioned) == kept
            <==> !(0 < off < SEGMENT_HEADER_SIZE && Good(crc, kind, Body(file, off)) == [])
  {
    hide Good, EncodeAll;
    var off, kept := ReadHeader(file, unversioned).value, Retained(crc, kind, file, unversioned);
    if off <= |file| {
      var body := Body(file, off);
      var good := Good(crc, kind, body);
      RetainedIsEncoding(crc, kind, file, unversioned);
      GoodBytes(crc, kind, body);
      GoodOfAll(crc, kind, good);
      assert Body(kept, off) == EncodeAll(crc, kind, good);
      EncodeAllLength(crc, kind, good);
      if |kept| >= SEGMENT_HEADER_SIZE {
        assert kept[..4] == file[..4] && kept[4..6] == file[4..6] && kept[6..8] == file[6..8];
      }
    }
  }

  /** Such a file: a header that declares 12 bytes and nothing after it. One scan reads no records and cuts it to 12
      bytes; the next cannot read its header. */
  lemma ShortHeaderScans(crc: Crc, kind: Kind, unversioned: bool)
    ensures var file := SegmentHeader(SEGMENT_VERSION, 12, Zeros(8));
            && Scanned(crc, kind, file, unversioned) == Ok([]) && Retained(crc, kind, file, unversioned) == file[..12]
            && Scanned(crc, kind, file[..12], unversioned) == Err(Truncated)
  {
    hide Encoded, Decoded;
    Widths();
    var file := SegmentHeader(SEGMENT_VERSION, 12, Zeros(8));
    assert file + [] == file;
    HeaderReads(SEGMENT_VERSION, 12, Zeros(8), [], unversioned);
    var body := Body(file, 12);
    assert |body| == 4;
    assert Good(crc, kind, body) == [];
    EncodeAllLength(crc, kind, []);
    assert GoodLen(crc, kind, body) == 0;
    assert file[..12][..4] == SEGMENT_MAGIC;
  }

  lemma EncodeAllLength(crc: Crc, kind: Kind, rs: seq<Record>)
    requires AllStamped(crc, kind, rs)
    ensures rs == [] ==> EncodeAll(crc, kind, rs) == []
    ensures rs != [] ==> |EncodeAll(crc, kind, rs)| >= 36
  {
    hide Stamped;
  }
}
