/** The RAR5 header walk: what a sequence of bytes means as an archive's headers. */
module Rar5Format {
  import opened Wrappers
  import opened Vint

  const MAGIC: Octets := [0x52, 0x61, 0x72, 0x21, 0x1A, 0x07, 0x01, 0x00]

  /** CRC32, whatever it computes. */
  type Checksum = Octets -> nat

  /** What an encryption record of an extra area says. */
  datatype Encryption = Encryption(
    lg2Count: Octet, salt: Octets, usePswCheck: bool, pswCheck: Octets, iv: Octets)

  /** The fields of a file or service header. */
  datatype FileInfo = FileInfo(
    name: Octets,
    unpackedSize: nat,
    compressionMethod: nat,
    isDirectory: bool,
    isEncrypted: bool,
    isSolid: bool,
    encryption: Option<Encryption>)

  datatype Header =
    | Archive(isFirstVolume: bool, volumeNumber: Option<int>)
    | File(info: FileInfo, dataStart: nat, dataSize: nat)
    | Service(name: Octets, dataSize: nat)
    | EndArchive(volumeNumber: Option<int>)

  predicate Bit(flags: nat, weight: nat)
    requires weight > 0
  {
    flags / weight % 2 == 1
  }

  /** The low 32 bits, as a signed integer. */
  function AsI32(v: nat): int {
    var low := v % 0x1_0000_0000;
    if low >= 0x8000_0000 then low - 0x1_0000_0000 else low
  }

  function Le32(s: Octets): nat
    requires |s| == 4
  {
    var a: nat, b: nat, c: nat, d: nat := s[0], s[1], s[2], s[3];
    a + 0x100 * (b + 0x100 * (c + 0x100 * d))
  }

  /** The next `n` bytes, and what is left. */
  function Take(s: Octets, n: nat): (r: Result<(Octets, Octets), RarError>)
    ensures r.Ok? <==> n <= |s|
    ensures r.Ok? ==> r.value == (s[..n], s[n..])
  {
    if n <= |s| then Ok((s[..n], s[n..])) else Err(UnexpectedEof)
  }

  function ReadIf(c: bool, s: Octets): Result<(nat, Octets), RarError> {
    if c then Read(s) else Ok((0, s))
  }

  // ---- Bodies ---------------------------------------------------------------------

  function ArchiveBody(body: Octets): Result<Header, RarError> {
    var (flags, r1) :- Read(body);
    if Bit(flags, 2) then
      var (number, _) :- Read(r1);
      Ok(Archive(!Bit(flags, 1) || AsI32(number) == 0, Some(AsI32(number))))
    else Ok(Archive(!Bit(flags, 1), None))
  }

  /** Flags and unpacked size of a file header, and what is left after its fixed fields. */
  function FileStart(body: Octets): Result<(nat, nat, Octets), RarError> {
    var (flags, r1) :- Read(body);
    var (unpacked, r2) :- ReadIf(!Bit(flags, 8), r1);
    var (_, r3) :- Read(r2);
    var (_, r4) :- Take(r3, if Bit(flags, 2) then 4 else 0);
    var (_, r5) :- Take(r4, if Bit(flags, 4) then 4 else 0);
    Ok((flags, unpacked, r5))
  }

  /** Compression, name, and what is left after the name. */
  function FileName(s: Octets): (r: Result<(nat, Octets, Octets), RarError>)
    ensures r.Ok? ==> |r.value.2| < |s|
  {
    var (compression, r1) :- Read(s);
    var (_, r2) :- Read(r1);
    var (nameLen, r3) :- Read(r2);
    var (name, r4) :- Take(r3, nameLen);
    Ok((compression, name, r4))
  }

  /** An encryption record after its type. */
  function EncryptionRecord(s: Octets): Result<Encryption, RarError> {
    var (_, r1) :- Read(s);
    var (flags, r2) :- Read(r1);
    var (lg2, r3) :- Take(r2, 1);
    var (salt, r4) :- Take(r3, 16);
    var (iv, r5) :- Take(r4, 16);
    var (check, _) :- Take(r5, if Bit(flags, 1) then 12 else 0);
    Ok(Encryption(lg2[0], salt, Bit(flags, 1), check, iv))
  }

  /** A record of an extra area: its type, what follows the type, and where the record ends. */
  function RecordAt(body: Octets, pos: nat): (r: Option<(nat, Octets, nat)>)
    ensures r.Some? ==> r.value.2 > pos
  {
    match Read(From(body, pos))
    case Err(_) => None
    case Ok((size, r1)) =>
      match Read(r1)
      case Err(_) => None
      case Ok((kind, r2)) => Some((kind, r2, pos + |From(body, pos)| - |r1| + size))
  }

  /** The last encryption record of an extra area that ends at `end`, from `pos` on. What
      cannot be read ends it, but an encryption record that is cut is an error. */
  function ExtraFrom(body: Octets, pos: nat, end: nat, found: Option<Encryption>)
    : Result<Option<Encryption>, RarError>
    decreases end - pos
  {
    if pos >= end then Ok(found)
    else
      match RecordAt(body, pos)
      case None => Ok(found)
      case Some((kind, rest, next)) =>
        if kind == 1 then
          var encryption :- EncryptionRecord(rest);
          ExtraFrom(body, next, end, Some(encryption))
        else ExtraFrom(body, next, end, found)
  }

  function FileBody(body: Octets, extraSize: nat): Result<FileInfo, RarError> {
    var (flags, unpacked, r5) :- FileStart(body);
    var (compression, name, extra) :- FileName(r5);
    var start := Sat(|body|, |extra|);
    var encryption :- ExtraFrom(body, start, start + extraSize, None);
    Ok(FileInfo(name, unpacked, compression / 128 % 16, Bit(flags, 1), encryption.Some?, Bit(compression, 64),
                encryption))
  }

  function EndBody(body: Octets): Result<Header, RarError> {
    var (flags, _) :- Read(body);
    Ok(EndArchive(if Bit(flags, 1) then Some(1) else None))
  }

  /** An encryption header; without a password it ends the parse either way. */
  function EncryptionBody(body: Octets): RarError {
    match Read(body)
    case Err(e) => e
    case Ok((version, r1)) =>
      if version != 0 then UnsupportedEncryptionVersion(version)
      else
        match Read(r1)
        case Err(e) => e
        case Ok((flags, r2)) =>
          if |r2| < 17 + (if Bit(flags, 1) then 12 else 0) then UnexpectedEof else EncryptedHeaders
  }

  /** What a header's body says; nothing for a type that is not known. */
  function BodyOf(kind: nat, body: Octets, extraSize: nat, dataStart: nat, dataSize: nat)
    : Result<Option<Header>, RarError>
  {
    match kind
    case 1 =>
      var h :- ArchiveBody(body);
      Ok(Some(h))
    case 2 =>
      var info :- FileBody(body, extraSize);
      Ok(Some(File(info, dataStart, dataSize)))
    case 3 =>
      var info :- FileBody(body, extraSize);
      Ok(Some(Service(info.name, dataSize)))
    case 4 => Err(EncryptionBody(body))
    case 5 =>
      var h :- EndBody(body);
      Ok(Some(h))
    case _ => Ok(None)
  }

  // ---- Heads ----------------------------------------------------------------------

  /** The fields before a body: `total` bytes are declared, the size field included, and
      `span` is what the header takes, body included. */
  datatype Head = Head(kind: nat, extraSize: nat, dataSize: nat, total: nat, span: nat, body: Octets)

  /** The header at the start of `t`, after its checksum. */
  function HeadOf(t: Octets): (r: Result<Head, RarError>)
    ensures r.Ok? ==> 0 < r.value.total <= r.value.span <= |t|
  {
    var (size, r1) :- Read(t);
    var total := |t| - |r1| + size;
    var (kind, extraSize, dataSize, r5) :- FieldsOf(r1);
    var remaining := Sat(total, |t| - |r5|);
    var (body, r6) :- Take(r5, remaining);
    Ok(Head(kind, extraSize, dataSize, total, |t| - |r6|, body))
  }

  /** Type, extra area size and data size of a header, and what is left after them. */
  function FieldsOf(s: Octets): (r: Result<(nat, nat, nat, Octets), RarError>)
    ensures r.Ok? ==> |r.value.3| < |s|
  {
    var (kind, r2) :- Read(s);
    var (flags, r3) :- Read(r2);
    var (extraSize, r4) :- ReadIf(Bit(flags, 1), r3);
    var (dataSize, r5) :- ReadIf(Bit(flags, 2), r4);
    Ok((kind, extraSize, dataSize, r5))
  }

  /** Where the block after a header at `pos` begins. */
  function After(pos: nat, h: Head): (next: nat)
    requires 0 < h.total <= h.span
    ensures next > pos
  {
    if h.dataSize > 0 then pos + 4 + h.total + h.dataSize else pos + 4 + h.span
  }

  /** A block: what its header says, if it is of a known type, whether it is the end block,
      and where the next one begins. */
  datatype Turn = Turn(header: Option<Header>, last: bool, next: nat)

  function TurnAt(s: Octets, crc: Checksum, pos: nat): (r: Result<Turn, RarError>)
    requires pos + 4 <= |s|
    ensures r.Ok? ==> r.value.next > pos
  {
    var t := s[pos + 4..];
    var h :- HeadOf(t);
    if crc(t[..h.total]) != Le32(s[pos..pos + 4]) then Err(InvalidHeaderCrc(pos))
    else
      var header :- BodyOf(h.kind, h.body, h.extraSize, pos + 4 + h.span, h.dataSize);
      Ok(Turn(header, h.kind == 5, After(pos, h)))
  }

  /** Walk the blocks from `pos` on, up to the end block or the end of the bytes. */
  function Walk(s: Octets, crc: Checksum, pos: nat): Result<seq<Header>, RarError>
    decreases |s| - pos
  {
    if pos + 4 > |s| then Ok([])
    else
      var turn :- TurnAt(s, crc, pos);
      var here := if turn.header.Some? then [turn.header.value] else [];
      if turn.last then Ok(here)
      else
        var more :- Walk(s, crc, turn.next);
        Ok(here + more)
  }

  function Parsed(s: Octets, crc: Checksum): Result<seq<Header>, RarError> {
    if |s| < 8 then Err(UnexpectedEof)
    else if s[..8] != MAGIC then Err(SignatureNotFound)
    else Walk(s, crc, 8)
  }
}
