/** The parser: a reader moved through an archive, and a cursor through each header's body. */
module Rar5Parsers {
  import opened Wrappers
  import opened Vint
  import opened Rar5Readers
  import opened Rar5Format

  method ReadArchiveBody(cursor: Reader) returns (r: Result<Header, RarError>)
    modifies cursor
    ensures r == ArchiveBody(old(cursor.Left()))
  {
    hide Read;
    var flags :- cursor.ReadVint();
    var isVolume := Bit(flags, 1);
    if Bit(flags, 2) {
      var number :- cursor.ReadVint();
      return Ok(Archive(!isVolume || AsI32(number) == 0, Some(AsI32(number))));
    }
    r := Ok(Archive(!isVolume, None));
  }

  /** The flags and the unpacked size; attributes, time and checksum are passed over. */
  method ReadFileStart(cursor: Reader) returns (r: Result<(nat, nat), RarError>)
    modifies cursor
    ensures r.Ok? <==> FileStart(old(cursor.Left())).Ok?
    ensures r.Ok? ==> (r.value.0, r.value.1, cursor.Left()) == FileStart(old(cursor.Left())).value
    ensures r.Err? ==> r.error == FileStart(old(cursor.Left())).error
    ensures r.Ok? ==> cursor.pos == old(cursor.pos) + |old(cursor.Left())| - |cursor.Left()|
  {
    hide Read, Reader.Left, Bit;
    var flags :- cursor.ReadVint();
    var unpacked := 0;
    if !Bit(flags, 8) {
      unpacked :- cursor.ReadVint();
    }
    var attributes :- cursor.ReadVint();
    if Bit(flags, 2) {
      var mtime :- cursor.ReadExact(4);
    } else {
      assert Take(cursor.Left(), 0).value == ([], cursor.Left());
    }
    if Bit(flags, 4) {
      var dataCrc :- cursor.ReadExact(4);
    } else {
      assert Take(cursor.Left(), 0).value == ([], cursor.Left());
    }
    r := Ok((flags, unpacked));
  }

  /** Compression and name; the host system is passed over. */
  method ReadFileName(cursor: Reader) returns (r: Result<(nat, Octets), RarError>)
    modifies cursor
    ensures r.Ok? <==> FileName(old(cursor.Left())).Ok?
    ensures r.Ok? ==> (r.value.0, r.value.1, cursor.Left()) == FileName(old(cursor.Left())).value
    ensures r.Err? ==> r.error == FileName(old(cursor.Left())).error
    ensures r.Ok? ==> cursor.pos == old(cursor.pos) + |old(cursor.Left())| - |cursor.Left()|
  {
    hide Read, Reader.Left;
    var compression :- cursor.ReadVint();
    var hostOs :- cursor.ReadVint();
    var nameLen :- cursor.ReadVint();
    var name :- cursor.ReadExact(nameLen);
    r := Ok((compression, name));
  }

  method ReadEncryption(cursor: Reader) returns (r: Result<Encryption, RarError>)
    modifies cursor
    ensures r == EncryptionRecord(old(cursor.Left()))
  {
    hide Read, Reader.Left, Bit;
    var version :- cursor.ReadVint();
    var flags :- cursor.ReadVint();
    var lg2 :- cursor.ReadExact(1);
    var salt :- cursor.ReadExact(16);
    var iv :- cursor.ReadExact(16);
    var check := [];
    if Bit(flags, 1) {
      check :- cursor.ReadExact(12);
    } else {
      assert Take(cursor.Left(), 0).value == ([], cursor.Left());
    }
    r := Ok(Encryption(lg2[0], salt, Bit(flags, 1), check, iv));
  }

  /** The type of the record at the cursor and where the record ends. */
  method ReadRecordHead(cursor: Reader) returns (r: Option<(nat, nat)>)
    modifies cursor
    ensures
      match RecordAt(cursor.bytes, old(cursor.pos))
      case None => r == None
      case Some((kind, rest, next)) => r == Some((kind, next)) && cursor.Left() == rest
  {
    hide Read;
    var size := cursor.ReadVint();
    if size.Err? {
      return None;
    }
    var start := cursor.pos;
    var kind := cursor.ReadVint();
    if kind.Err? {
      return None;
    }
    r := Some((kind.value, start + size.value));
  }

  /** Go through an extra area that ends at `end`, record by record. */
  method ReadExtra(cursor: Reader, end: nat) returns (r: Result<Option<Encryption>, RarError>)
    modifies cursor
    ensures r == ExtraFrom(cursor.bytes, old(cursor.pos), end, None)
  {
    hide Read, EncryptionRecord, RecordAt, Reader.Left;
    var body, found := cursor.bytes, None;
    ghost var whole := ExtraFrom(body, cursor.pos, end, None);
    while cursor.pos < end
      invariant ExtraFrom(body, cursor.pos, end, found) == whole
      decreases end - cursor.pos
    {
      var head := ReadRecordHead(cursor);
      if head.None? {
        break;
      }
      var (kind, next) := head.value;
      if kind == 1 {
        var encryption :- ReadEncryption(cursor);
        found := Some(encryption);
      }
      cursor.pos := next;
    }
    r := Ok(found);
  }

  method ReadFileBody(cursor: Reader, extraSize: nat) returns (r: Result<FileInfo, RarError>)
    requires cursor.pos == 0
    modifies cursor
    ensures r == FileBody(cursor.bytes, extraSize)
  {
    hide Read, Bit, FileStart, FileName, ExtraFrom;
    assert cursor.Left() == cursor.bytes;
    var fields :- ReadFileStart(cursor);
    var (flags, unpacked) := fields;
    var named :- ReadFileName(cursor);
    var (compression, name) := named;
    var encryption :- ReadExtra(cursor, cursor.pos + extraSize);
    r := Ok(FileInfo(name, unpacked, compression / 128 % 16, Bit(flags, 1), encryption.Some?, Bit(compression, 64),
                     encryption));
  }

  method ReadEndBody(cursor: Reader) returns (r: Result<Header, RarError>)
    modifies cursor
    ensures r == EndBody(old(cursor.Left()))
  {
    var flags :- cursor.ReadVint();
    r := Ok(EndArchive(if Bit(flags, 1) then Some(1) else None));
  }

  method ReadBody(kind: nat, body: Octets, extraSize: nat, dataStart: nat, dataSize: nat)
    returns (r: Result<Option<Header>, RarError>)
    ensures r == BodyOf(kind, body, extraSize, dataStart, dataSize)
  {
    hide ArchiveBody, FileBody, EndBody;
    var cursor := new Reader(body);
    assert cursor.Left() == body;
    match kind {
      case 1 =>
        var h :- ReadArchiveBody(cursor);
        r := Ok(Some(h));
      case 2 =>
        var info :- ReadFileBody(cursor, extraSize);
        r := Ok(Some(File(info, dataStart, dataSize)));
      case 3 =>
        var info :- ReadFileBody(cursor, extraSize);
        r := Ok(Some(Service(info.name, dataSize)));
      case 4 =>
        r := Err(EncryptionBody(body));
      case 5 =>
        var h :- ReadEndBody(cursor);
        r := Ok(Some(h));
      case _ =>
        r := Ok(None);
    }
  }

  /** Read a header up to the end of its body. */
  method ReadHead(reader: Reader) returns (r: Result<Head, RarError>)
    modifies reader
    ensures r == HeadOf(old(reader.Left()))
    ensures r.Ok? ==> reader.pos == old(reader.pos) + r.value.span
  {
    hide Read, Reader.Left, Bit;
    var start := reader.pos;
    var size :- reader.ReadVint();
    var total := reader.pos - start + size;
    var kind :- reader.ReadVint();
    var flags :- reader.ReadVint();
    var extraSize, dataSize := 0, 0;
    if Bit(flags, 1) {
      extraSize :- reader.ReadVint();
    }
    if Bit(flags, 2) {
      dataSize :- reader.ReadVint();
    }
    var remaining := Sat(total, reader.pos - start);
    var body :- reader.ReadExact(remaining);
    r := Ok(Head(kind, extraSize, dataSize, total, reader.pos - start, body));
  }

  /** Headers found so far, then those of the rest. */
  function Prepend(found: seq<Header>, rest: Result<seq<Header>, RarError>): Result<seq<Header>, RarError> {
    match rest
    case Err(e) => Err(e)
    case Ok(more) => Ok(found + more)
  }

  lemma TurnMeans(s: Octets, crc: Checksum, pos: nat, found: seq<Header>)
    requires pos + 4 <= |s|
    ensures
      var all, turn := Prepend(found, Walk(s, crc, pos)), TurnAt(s, crc, pos);
      && (turn.Err? ==> all == Err(turn.error))
      && (turn.Ok? ==>
            var found' := if turn.value.header.Some? then found + [turn.value.header.value] else found;
            all == if turn.value.last then Ok(found') else Prepend(found', Walk(s, crc, turn.value.next)))
  {
    hide TurnAt;
    var turn := TurnAt(s, crc, pos);
    assert found + [] == found;
    if turn.Ok? {
      var here := if turn.value.header.Some? then [turn.value.header.value] else [];
      var more := Walk(s, crc, turn.value.next);
      if more.Ok? {
        assert (found + here) + more.value == found + (here + more.value);
      }
    }
  }

  lemma Nothing(rest: Result<seq<Header>, RarError>)
    ensures Prepend([], rest) == rest
  {
    assert rest.Ok? ==> [] + rest.value == rest.value;
  }

  lemma End(s: Octets, crc: Checksum, pos: nat, found: seq<Header>)
    requires pos + 4 > |s|
    ensures Prepend(found, Walk(s, crc, pos)) == Ok(found)
  {
    assert found + [] == found;
  }

  lemma TurnAtIs(s: Octets, crc: Checksum, pos: nat, t: Octets, sum: Octets)
    requires pos + 4 <= |s| && t == s[pos + 4..] && sum == s[pos..pos + 4]
    ensures
      var head, turn := HeadOf(t), TurnAt(s, crc, pos);
      && (head.Err? ==> turn == Err(head.error))
      && (head.Ok? ==>
            var h := head.value;
            var body := BodyOf(h.kind, h.body, h.extraSize, pos + 4 + h.span, h.dataSize);
            var next := if h.dataSize > 0 then pos + 4 + h.total + h.dataSize else pos + 4 + h.span;
            && (crc(t[..h.total]) != Le32(sum) ==> turn == Err(InvalidHeaderCrc(pos)))
            && (crc(t[..h.total]) == Le32(sum) && body.Err? ==> turn == Err(body.error))
            && (crc(t[..h.total]) == Le32(sum) && body.Ok? ==> turn == Ok(Turn(body.value, h.kind == 5, next))))
  {
    hide HeadOf, BodyOf, Le32;
  }

  /** Read a block's header and body, and move past its data. */
  method ReadBlock(reader: Reader, crc: Checksum) returns (r: Result<(Option<Header>, bool), RarError>)
    requires reader.pos + 4 <= |reader.bytes|
    modifies reader
    ensures
      var turn := TurnAt(reader.bytes, crc, old(reader.pos));
      && (turn.Err? ==> r == Err(turn.error))
      && (turn.Ok? ==> r == Ok((turn.value.header, turn.value.last)) && reader.pos == turn.value.next)
  {
    hide TurnAt, HeadOf, BodyOf, Le32;
    var start := reader.pos;
    var four := reader.ReadExact(4);
    var sum := four.value;
    var t := reader.bytes[start + 4..];
    assert reader.Left() == t && sum == reader.bytes[start..start + 4];
    TurnAtIs(reader.bytes, crc, start, t, sum);
    hide *;
    var h :- ReadHead(reader);
    if crc(t[..h.total]) != Le32(sum) {
      return Err(InvalidHeaderCrc(start));
    }
    var header :- ReadBody(h.kind, h.body, h.extraSize, reader.pos, h.dataSize);
    if h.dataSize > 0 {
      reader.pos := start + 4 + h.total + h.dataSize;
    }
    r := Ok((header, h.kind == 5));
  }

  /** All headers of an archive. A reader that is moved past the end is at the end. */
  method ParseRar5(bytes: Octets, crc: Checksum) returns (r: Result<seq<Header>, RarError>)
    ensures r == Parsed(bytes, crc)
  {
    var reader := new Reader(bytes);
    assert reader.Left() == bytes;
    var magic :- reader.ReadExact(8);
    if magic != MAGIC {
      return Err(SignatureNotFound);
    }
    Nothing(Walk(bytes, crc, 8));
    hide *;
    var headers: seq<Header> := [];
    while reader.pos + 4 <= |bytes|
      invariant Prepend(headers, Walk(bytes, crc, reader.pos)) == Walk(bytes, crc, 8)
      decreases |bytes| - reader.pos
    {
      TurnMeans(bytes, crc, reader.pos, headers);
      var block :- ReadBlock(reader, crc);
      var (header, last) := block;
      if header.Some? {
        headers := headers + [header.value];
      }
      if last {
        return Ok(headers);
      }
    }
    End(bytes, crc, reader.pos, headers);
    r := Ok(headers);
  }
}
