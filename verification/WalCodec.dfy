/** Write-ahead-log records and segment headers as bytes. Clients and witnesses use the same layout up to the
    log position, which only the witness's records carry. */
module WalCodec {
  import opened Bytes
  import opened BigEndian

  type Word = n: nat | n < 0x1_0000_0000

  type Crc = seq<Byte> -> Word

  datatype Kind = Client | Log

  datatype Record = Record(position: nat, id: seq<Byte>, number: nat, payload: seq<Byte>, crc: Word)

  datatype Error = Eof | Truncated | Corrupted | ChecksumMismatch | UnsupportedVersion | BadHeaderLength | Unversioned
    | BadMagic

  datatype Result<+T> = Ok(value: T) | Err(error: Error)

  // ----- layout -----

  function Magic(kind: Kind): (m: seq<Byte>)
    ensures |m| == 4
  {
    match kind
    case Client => [87, 65, 76, 67]
    case Log => [87, 65, 76, 76]
  }

  /** The bytes before the length field. */
  function PrefixLen(kind: Kind): nat {
    if kind == Client then 28 else 36
  }

  function HeaderLen(kind: Kind): nat {
    PrefixLen(kind) + 8
  }

  predicate WellFormed(kind: Kind, r: Record) {
    && |r.id| == 16 && r.number < Pow256(8) && r.position < Pow256(8)
    && (kind == Client ==> r.position == 0)
  }

  function Prefix(kind: Kind, r: Record): (p: seq<Byte>)
    requires WellFormed(kind, r)
    ensures |p| == PrefixLen(kind)
  {
    match kind
    case Client => Magic(kind) + r.id + Encoded(r.number, 8)
    case Log => Magic(kind) + Encoded(r.position, 8) + r.id + Encoded(r.number, 8)
  }

  /** A header with `crc` in its checksum field; the length field keeps the low 32 bits. */
  function Header(kind: Kind, r: Record, crc: Word): (h: seq<Byte>)
    requires WellFormed(kind, r)
    ensures |h| == HeaderLen(kind)
  {
    Prefix(kind, r) + Encoded(|r.payload| % Pow256(4), 4) + Encoded(crc, 4)
  }

  function Checksum(crc: Crc, kind: Kind, r: Record): Word
    requires WellFormed(kind, r)
  {
    crc(Header(kind, r, 0) + r.payload)
  }

  /** A client record is stamped anew; a log record keeps a checksum it already has, unless that is zero. */
  function Stamp(crc: Crc, kind: Kind, r: Record): Word
    requires WellFormed(kind, r)
  {
    if kind == Log && r.crc != 0 then r.crc else Checksum(crc, kind, r)
  }

  function Encode(crc: Crc, kind: Kind, r: Record): (b: seq<Byte>)
    requires WellFormed(kind, r)
    ensures |b| == HeaderLen(kind) + |r.payload|
  {
    Header(kind, r, Stamp(crc, kind, r)) + r.payload
  }

  /** The record in a header and the payload that follows it. */
  function Parsed(kind: Kind, h: seq<Byte>, payload: seq<Byte>): (r: Record)
    requires |h| == HeaderLen(kind)
    ensures WellFormed(kind, r)
  {
    Widths();
    var crc := Decoded(h[PrefixLen(kind) + 4..]);
    match kind
    case Client => Record(0, h[4..20], Decoded(h[20..28]), payload, crc)
    case Log => Record(Decoded(h[4..12]), h[12..28], Decoded(h[28..36]), payload, crc)
  }

  function LengthField(kind: Kind, h: seq<Byte>): nat
    requires |h| == HeaderLen(kind)
  {
    Decoded(h[PrefixLen(kind)..PrefixLen(kind) + 4])
  }

  /** Read one record from the front of `b`. */
  function Decode(crc: Crc, kind: Kind, b: seq<Byte>): (r: Result<Record>)
    ensures r.Ok? ==> WellFormed(kind, r.value) && HeaderLen(kind) + |r.value.payload| <= |b|
  {
    if b == [] then Err(Eof)
    else if |b| < HeaderLen(kind) then Err(Truncated)
    else
      var h := b[..HeaderLen(kind)];
      if h[..4] != Magic(kind) then Err(Corrupted)
      else
        var n := LengthField(kind, h);
        if |b| - HeaderLen(kind) < n then Err(Truncated)
        else
          var rec := Parsed(kind, h, b[HeaderLen(kind)..HeaderLen(kind) + n]);
          if Checksum(crc, kind, rec) != rec.crc then Err(ChecksumMismatch) else Ok(rec)
  }

  // ----- round trips -----

  lemma ClientFields(r: Record)
    requires WellFormed(Client, r)
    ensures var p := Prefix(Client, r); p[..4] == Magic(Client) && p[4..20] == r.id && Decoded(p[20..28]) == r.number
  {
    hide Encoded, Decoded, Pow256;
    DecodedEncoded(r.number, 8);
    assert Prefix(Client, r)[20..28] == Encoded(r.number, 8);
  }

  lemma LogFields(r: Record)
    requires WellFormed(Log, r)
    ensures var p := Prefix(Log, r);
            p[..4] == Magic(Log) && Decoded(p[4..12]) == r.position && p[12..28] == r.id
            && Decoded(p[28..36]) == r.number
  {
    hide Encoded, Decoded, Pow256;
    DecodedEncoded(r.number, 8);
    DecodedEncoded(r.position, 8);
    assert Prefix(Log, r)[4..12] == Encoded(r.position, 8);
    assert Prefix(Log, r)[28..36] == Encoded(r.number, 8);
  }

  /** The fields of a header, read back. */
  lemma HeaderFields(kind: Kind, r: Record, c: Word)
    requires WellFormed(kind, r)
    ensures var h := Header(kind, r, c);
            && h[..4] == Magic(kind) && LengthField(kind, h) == |r.payload| % Pow256(4)
            && Parsed(kind, h, r.payload) == r.(crc := c)
  {
    hide Encoded, Decoded, Pow256, Prefix;
    Widths();
    var h, p, n := Header(kind, r, c), Prefix(kind, r), PrefixLen(kind);
    DecodedEncoded(|r.payload| % Pow256(4), 4);
    DecodedEncoded(c, 4);
    assert h[n..n + 4] == Encoded(|r.payload| % Pow256(4), 4);
    assert h[n + 4..] == Encoded(c, 4);
    assert forall i, j | 0 <= i <= j <= n :: h[i..j] == p[i..j];
    if kind == Client {
      ClientFields(r);
    } else {
      LogFields(r);
    }
  }

  lemma ClientPrefix(p: seq<Byte>, r: Record)
    requires |p| == 28 && p[..4] == Magic(Client) && WellFormed(Client, r) && r.id == p[4..20]
             && r.number == Decoded(p[20..28])
    ensures Prefix(Client, r) == p
  {
    hide Encoded, Decoded, Pow256;
    EncodedDecoded(p[20..28]);
    assert p == p[..4] + p[4..20] + p[20..28];
  }

  lemma LogPrefix(p: seq<Byte>, r: Record)
    requires |p| == 36 && p[..4] == Magic(Log) && WellFormed(Log, r)
    requires r.position == Decoded(p[4..12]) && r.id == p[12..28] && r.number == Decoded(p[28..36])
    ensures Prefix(Log, r) == p
  {
    hide Encoded, Decoded, Pow256;
    EncodedDecoded(p[4..12]);
    EncodedDecoded(p[28..36]);
    assert p == p[..4] + p[4..12] + p[12..28] + p[28..36];
  }

  /** A header that parses is the header of what it parses to. */
  lemma ParsedHeader(kind: Kind, h: seq<Byte>, payload: seq<Byte>)
    requires |h| == HeaderLen(kind) && h[..4] == Magic(kind) && |payload| == LengthField(kind, h)
    ensures Header(kind, Parsed(kind, h, payload), Parsed(kind, h, payload).crc) == h
  {
    hide Encoded, Decoded, Pow256, Prefix, WellFormed;
    var r, n := Parsed(kind, h, payload), PrefixLen(kind);
    var p := h[..n];
    assert p[..4] == h[..4];
    assert forall i, j | 0 <= i <= j <= n :: p[i..j] == h[i..j];
    if kind == Client {
      ClientPrefix(p, r);
    } else {
      LogPrefix(p, r);
    }
    EncodedDecoded(h[n..n + 4]);
    EncodedDecoded(h[n + 4..]);
    Small(|payload|, Pow256(4));
    assert h == p + h[n..n + 4] + h[n + 4..];
  }

  lemma Small(n: nat, m: nat)
    requires n < m
    ensures n % m == n
  {
  }

  /** The checksum does not cover itself. */
  lemma ChecksumIgnoresCrc(crc: Crc, kind: Kind, r: Record, c: Word)
    requires WellFormed(kind, r)
    ensures WellFormed(kind, r.(crc := c)) && Checksum(crc, kind, r.(crc := c)) == Checksum(crc, kind, r)
  {
    assert Header(kind, r.(crc := c), 0) == Header(kind, r, 0);
  }

  /** A record whose payload is under 4 GiB decodes from its encoding, whatever follows it, if and only if
      it is stamped with its own checksum; otherwise the mismatch is reported. */
  lemma DecodeEncode(crc: Crc, kind: Kind, r: Record, rest: seq<Byte>)
    requires WellFormed(kind, r) && |r.payload| < Pow256(4)
    ensures Decode(crc, kind, Encode(crc, kind, r) + rest) ==
            if Stamp(crc, kind, r) == Checksum(crc, kind, r) then Ok(r.(crc := Checksum(crc, kind, r)))
               else Err(ChecksumMismatch)
  {
    hide Header, Parsed, LengthField, Checksum;
    var c, b, n := Stamp(crc, kind, r), Encode(crc, kind, r) + rest, HeaderLen(kind);
    HeaderFields(kind, r, c);
    assert b[..n] == Header(kind, r, c);
    assert b[n..n + |r.payload|] == r.payload;
    ChecksumIgnoresCrc(crc, kind, r, c);
  }

  /** What decodes is, byte for byte, the encoding of the record it decodes to. */
  lemma EncodeDecode(crc: Crc, kind: Kind, b: seq<Byte>)
    requires Decode(crc, kind, b).Ok?
    ensures var r := Decode(crc, kind, b).value;
            && |r.payload| < Pow256(4) && r.crc == Checksum(crc, kind, r)
            && b[..HeaderLen(kind) + |r.payload|] == Encode(crc, kind, r)
  {
    hide Encoded, Decoded, Pow256, Header, WellFormed, Checksum;
    var n := HeaderLen(kind);
    var h, r := b[..n], Decode(crc, kind, b).value;
    assert r == Parsed(kind, h, r.payload) && |r.payload| == LengthField(kind, h);
    ParsedHeader(kind, h, r.payload);
    assert b[..n + |r.payload|] == h + r.payload;
  }

  /** A record cut anywhere inside is reported as cut, or as the end when nothing of it is left. */
  lemma DecodeCut(crc: Crc, kind: Kind, r: Record, k: nat)
    requires WellFormed(kind, r) && |r.payload| < Pow256(4) && k < |Encode(crc, kind, r)|
    ensures Decode(crc, kind, Encode(crc, kind, r)[..k]) == Err(if k == 0 then Eof else Truncated)
  {
    hide Header, Parsed, Checksum;
    var c, n := Stamp(crc, kind, r), HeaderLen(kind);
    if k >= n {
      HeaderFields(kind, r, c);
      assert Encode(crc, kind, r)[..k][..n] == Header(kind, r, c);
    }
  }
}
