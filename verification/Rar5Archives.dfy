/** Archives as they are written, and what walking them gives back. */
module Rar5Archives {
  import opened Wrappers
  import opened Vint
  import opened Rar5Format

  /** A block as it is written: its flags, its extra area's size when it has one, its body
      (the extra area at its end), and its data area. */
  datatype Block = Block(kind: nat, flags: nat, extraSize: nat, body: Octets, data: Octets)

  function Opt(c: bool, v: nat): Octets {
    if c then Encode(v) else []
  }

  /** The extra area's size as the header gives it: none without the flag. */
  function ExtraSize(b: Block): nat {
    if Bit(b.flags, 1) then b.extraSize else 0
  }

  function HeadOfBlock(b: Block): Head {
    Head(b.kind, ExtraSize(b), |b.data|, |Covered(b)|, |Covered(b)|, b.body)
  }

  /** The fields before the body. */
  function Fields(b: Block): Octets {
    Encode(b.kind) + (Encode(b.flags) + (Opt(Bit(b.flags, 1), b.extraSize) + Opt(Bit(b.flags, 2), |b.data|)))
  }

  /** What the size field counts. */
  function Inner(b: Block): Octets {
    Fields(b) + b.body
  }

  /** What the checksum covers. */
  function Covered(b: Block): Octets {
    Encode(|Inner(b)|) + Inner(b)
  }

  function Octet4(v: nat): (r: Octets)
    ensures |r| == 4
  {
    [v % 0x100, v / 0x100 % 0x100, v / 0x1_0000 % 0x100, v / 0x100_0000 % 0x100]
  }

  function BlockBytes(b: Block, crc: Checksum): Octets {
    Octet4(crc(Covered(b))) + (Covered(b) + b.data)
  }

  function Bytes(blocks: seq<Block>, crc: Checksum): Octets {
    if blocks == [] then [] else BlockBytes(blocks[0], crc) + Bytes(blocks[1..], crc)
  }

  function ArchiveBytes(blocks: seq<Block>, crc: Checksum): Octets {
    MAGIC + Bytes(blocks, crc)
  }

  /** Sizes and values fit in 64 bits, and data is only where the flags say. */
  ghost predicate WellFormed(b: Block) {
    && b.kind < U64 && b.flags < U64 && b.extraSize < U64
    && |Inner(b)| < U64 && |b.data| < U64
    && (b.data != [] ==> Bit(b.flags, 2))
  }

  ghost predicate AllWellFormed(blocks: seq<Block>) {
    forall i :: 0 <= i < |blocks| ==> WellFormed(blocks[i])
  }

  ghost predicate Fits32(crc: Checksum) {
    forall c: Octets :: crc(c) < 0x1_0000_0000
  }

  lemma FirstAndRest(blocks: seq<Block>)
    requires AllWellFormed(blocks) && blocks != []
    ensures WellFormed(blocks[0]) && AllWellFormed(blocks[1..])
  {
    hide WellFormed;
  }

  /** What a visit of the blocks one after the other gives, the first one at `pos`. */
  function Visit(blocks: seq<Block>, crc: Checksum, pos: nat): Result<seq<Header>, RarError> {
    if blocks == [] then Ok([])
    else
      var b := blocks[0];
      var header :- BodyOf(b.kind, b.body, ExtraSize(b), pos + 4 + |Covered(b)|, |b.data|);
      var here := if header.Some? then [header.value] else [];
      if b.kind == 5 then Ok(here)
      else
        var more :- Visit(blocks[1..], crc, pos + |BlockBytes(b, crc)|);
        Ok(here + more)
  }

  lemma LeInvertsOctet4(v: nat)
    requires v < 0x1_0000_0000
    ensures Le32(Octet4(v)) == v
  {
    var a := v / 0x100;
    var b := v / 0x1_0000;
    var c := v / 0x100_0000;
    assert v == v % 0x100 + 0x100 * a;
    assert a == a % 0x100 + 0x100 * b;
    assert b == b % 0x100 + 0x100 * c;
    assert c < 0x100;
  }

  lemma OptReads(c: bool, v: nat, rest: Octets)
    requires v < U64
    ensures ReadIf(c, Opt(c, v) + rest) == Ok((if c then v else 0, rest))
  {
    if c {
      ReadInvertsEncode(v, rest);
    } else {
      assert Opt(c, v) + rest == rest;
    }
  }

  lemma Assoc(a: Octets, b: Octets, c: Octets)
    ensures (a + b) + c == a + (b + c)
  {
  }

  lemma FieldsReadBack(b: Block, rest: Octets)
    requires WellFormed(b)
    ensures FieldsOf(Fields(b) + rest) == Ok((b.kind, ExtraSize(b), |b.data|, rest))
  {
    var extra, data := Opt(Bit(b.flags, 1), b.extraSize), Opt(Bit(b.flags, 2), |b.data|);
    var kind, flags := Encode(b.kind), Encode(b.flags);
    assert Fields(b) == kind + (flags + (extra + data));
    ReadInvertsEncode(b.kind, flags + (extra + (data + rest)));
    ReadInvertsEncode(b.flags, extra + (data + rest));
    OptReads(Bit(b.flags, 1), b.extraSize, data + rest);
    OptReads(Bit(b.flags, 2), |b.data|, rest);
    hide Encode, Read, Opt, Inner, Bit, ReadIf, Fields;
    Assoc(extra, data, rest);
    Assoc(flags, extra + data, rest);
    Assoc(kind, flags + (extra + data), rest);
  }

  lemma TakeReads(body: Octets, rest: Octets)
    ensures Take(body + rest, |body|) == Ok((body, rest))
  {
    assert (body + rest)[..|body|] == body && (body + rest)[|body|..] == rest;
  }

  lemma HeadFrom(t: Octets, size: nat, r1: Octets, kind: nat, extraSize: nat, dataSize: nat, body: Octets, rest: Octets)
    requires Read(t) == Ok((size, r1)) && FieldsOf(r1) == Ok((kind, extraSize, dataSize, body + rest))
    requires |t| - |r1| + size == |t| - |rest|
    ensures HeadOf(t) == Ok(Head(kind, extraSize, dataSize, |t| - |rest|, |t| - |rest|, body))
  {
    TakeReads(body, rest);
    hide Read, FieldsOf, Take;
  }

  lemma CoveredSplits(b: Block, rest: Octets)
    ensures Covered(b) + rest == Encode(|Inner(b)|) + (Fields(b) + (b.body + rest))
    ensures |Covered(b)| == |Encode(|Inner(b)|)| + |Inner(b)| && |Inner(b)| == |Fields(b)| + |b.body|
  {
    var size, fields := Encode(|Inner(b)|), Fields(b);
    assert Covered(b) == size + (fields + b.body);
    hide *;
    Assoc(fields, b.body, rest);
    Assoc(size, fields + b.body, rest);
  }

  lemma HeadOfBlockIs(b: Block)
    ensures HeadOfBlock(b) == Head(b.kind, ExtraSize(b), |b.data|, |Covered(b)|, |Covered(b)|, b.body)
  {
  }

  lemma InnerFits(b: Block)
    requires WellFormed(b)
    ensures |Inner(b)| < U64
  {
  }

  /** A block's header reads back, whatever follows it. */
  lemma HeadReadsBack(b: Block, rest: Octets)
    requires WellFormed(b)
    ensures HeadOf(Covered(b) + rest)
         == Ok(HeadOfBlock(b))
  {
    hide *;
    HeadOfBlockIs(b);
    InnerFits(b);
    CoveredSplits(b, rest);
    ReadInvertsEncode(|Inner(b)|, Fields(b) + (b.body + rest));
    FieldsReadBack(b, b.body + rest);
    HeadFrom(Covered(b) + rest, |Inner(b)|, Fields(b) + (b.body + rest),
             b.kind, ExtraSize(b), |b.data|, b.body, rest);
  }

  /** The walk finds a block's header at `pos`, checksum and all. */
  ghost predicate HeaderAt(s: Octets, crc: Checksum, pos: nat, b: Block) {
    && pos + 4 <= |s|
    && HeadOf(s[pos + 4..]) == Ok(HeadOfBlock(b))
    && s[pos + 4..][..|Covered(b)|] == Covered(b)
    && Le32(s[pos..pos + 4]) == crc(Covered(b))
  }

  lemma HeaderIsAt(before: Octets, b: Block, rest: Octets, crc: Checksum)
    requires WellFormed(b) && Fits32(crc)
    ensures HeaderAt(before + (BlockBytes(b, crc) + rest), crc, |before|, b)
  {
    var covered, sum := Covered(b), Octet4(crc(Covered(b)));
    assert crc(covered) < 0x1_0000_0000;
    BlockAt(before, sum, covered, b.data, rest);
    HeadReadsBack(b, b.data + rest);
    LeInvertsOctet4(crc(covered));
    hide HeadOf, Covered, Octet4, Le32, WellFormed;
  }

  /** What a walk makes of a block at `pos`. */
  lemma WalkTurn(s: Octets, crc: Checksum, pos: nat, b: Block)
    requires HeaderAt(s, crc, pos, b)
    ensures Walk(s, crc, pos)
         == Onward(BodyOf(b.kind, b.body, ExtraSize(b), pos + 4 + |Covered(b)|, |b.data|), b.kind,
                   Walk(s, crc, pos + |BlockBytes(b, crc)|))
  {
    BlockSize(b, crc);
    hide HeadOf, BodyOf, Le32, Covered, BlockBytes;
  }

  function Onward(header: Result<Option<Header>, RarError>, kind: nat, more: Result<seq<Header>, RarError>)
    : Result<seq<Header>, RarError>
  {
    match header
    case Err(e) => Err(e)
    case Ok(h) =>
      var here := if h.Some? then [h.value] else [];
      if kind == 5 then Ok(here)
      else if more.Err? then more
      else Ok(here + more.value)
  }

  lemma BlockSize(b: Block, crc: Checksum)
    ensures |BlockBytes(b, crc)| == 4 + |Covered(b)| + |b.data|
  {
  }

  lemma VisitTurn(blocks: seq<Block>, crc: Checksum, pos: nat)
    requires blocks != []
    ensures
      var b := blocks[0];
      Visit(blocks, crc, pos)
      == Onward(BodyOf(b.kind, b.body, ExtraSize(b), pos + 4 + |Covered(b)|, |b.data|), b.kind,
                Visit(blocks[1..], crc, pos + |BlockBytes(b, crc)|))
  {
    hide BodyOf, Covered, BlockBytes;
  }

  lemma BytesSplit(before: Octets, blocks: seq<Block>, crc: Checksum)
    requires blocks != []
    ensures before + Bytes(blocks, crc) == before + (BlockBytes(blocks[0], crc) + Bytes(blocks[1..], crc))
    ensures before + Bytes(blocks, crc) == (before + BlockBytes(blocks[0], crc)) + Bytes(blocks[1..], crc)
  {
    Assoc(before, BlockBytes(blocks[0], crc), Bytes(blocks[1..], crc));
    hide BlockBytes;
  }

  lemma WalkEnds(before: Octets, crc: Checksum)
    ensures before + Bytes([], crc) == before
    ensures Walk(before, crc, |before|) == Ok([]) == Visit([], crc, |before|)
  {
  }

  /** Walking an archive visits every block once, in order, up to the end block: each header
      is read from its own body, with the data area that follows it. */
  lemma {:induction false} WalkVisitsEachBlock(before: Octets, blocks: seq<Block>, crc: Checksum)
    requires AllWellFormed(blocks) && Fits32(crc)
    ensures Walk(before + Bytes(blocks, crc), crc, |before|) == Visit(blocks, crc, |before|)
    decreases |blocks|
  {
    hide *;
    if blocks == [] {
      WalkEnds(before, crc);
    } else {
      var b, rest, pos := blocks[0], Bytes(blocks[1..], crc), |before|;
      var block := BlockBytes(b, crc);
      FirstAndRest(blocks);
      BlockSize(b, crc);
      WalkVisitsEachBlock(before + block, blocks[1..], crc);
      VisitTurn(blocks, crc, pos);
      BytesSplit(before, blocks, crc);
      HeaderIsAt(before, b, rest, crc);
      WalkTurn(before + (block + rest), crc, pos, b);
    }
  }

  lemma BlockAt(before: Octets, sum: Octets, covered: Octets, data: Octets, rest: Octets)
    requires |sum| == 4
    ensures
      var s, pos := before + (sum + (covered + data) + rest), |before|;
      && s[pos..pos + 4] == sum
      && s[pos + 4..] == covered + (data + rest)
      && (covered + (data + rest))[..|covered|] == covered
      && s[pos + 4 + |covered|..][..|data|] == data
  {
  }

  /** A parse of a whole archive is the visit of its blocks. */
  lemma ParseVisitsEachBlock(blocks: seq<Block>, crc: Checksum)
    requires AllWellFormed(blocks) && Fits32(crc)
    ensures Parsed(ArchiveBytes(blocks, crc), crc) == Visit(blocks, crc, 8)
  {
    WalkVisitsEachBlock(MAGIC, blocks, crc);
    assert ArchiveBytes(blocks, crc)[..8] == MAGIC;
  }

  // ---- Data areas -----------------------------------------------------------------

  /** A file header delimits a block's own data area. */
  ghost predicate Delimits(s: Octets, h: Header, b: Block)
    requires h.File?
  {
    && b.kind == 2 && FileBody(b.body, ExtraSize(b)) == Ok(h.info)
    && h.dataStart + h.dataSize <= |s|
    && s[h.dataStart..h.dataStart + h.dataSize] == b.data
  }

  /** In place, a block's data area is where its file header says. */
  lemma FirstDelimits(before: Octets, b: Block, rest: Octets, crc: Checksum, info: FileInfo)
    requires b.kind == 2 && FileBody(b.body, ExtraSize(b)) == Ok(info)
    ensures Delimits(before + (BlockBytes(b, crc) + rest),
                     File(info, |before| + 4 + |Covered(b)|, |b.data|), b)
  {
    hide Covered, FileBody, ExtraSize;
    var start := |before| + 4 + |Covered(b)|;
    BlockAt(before, Octet4(crc(Covered(b))), Covered(b), b.data, rest);
    BlockSize(b, crc);
    var s := before + (BlockBytes(b, crc) + rest);
    assert s[start..][..|b.data|] == b.data;
    assert s[start..start + |b.data|] == s[start..][..|b.data|];
  }

  /** The file headers among some headers, in order. */
  function FilesOf(headers: seq<Header>): (r: seq<Header>)
    ensures forall h :: h in r <==> h in headers && h.File?
  {
    if headers == [] then []
    else (if headers[0].File? then [headers[0]] else []) + FilesOf(headers[1..])
  }

  /** The file blocks up to the end block, in order. */
  function FileBlocks(blocks: seq<Block>): seq<Block> {
    if blocks == [] || blocks[0].kind == 5 then []
    else (if blocks[0].kind == 2 then [blocks[0]] else []) + FileBlocks(blocks[1..])
  }

  /** Header by header and block by block, each delimits its block's data. */
  ghost predicate DelimitAll(s: Octets, headers: seq<Header>, blocks: seq<Block>) {
    && |headers| == |blocks|
    && (forall n :: 0 <= n < |headers| ==> headers[n].File? && Delimits(s, headers[n], blocks[n]))
  }

  lemma DelimitMore(s: Octets, h: Header, b: Block, headers: seq<Header>, blocks: seq<Block>)
    requires h.File? && Delimits(s, h, b) && DelimitAll(s, headers, blocks)
    ensures DelimitAll(s, [h] + headers, [b] + blocks)
  {
    hide Delimits;
  }

  /** The n-th file header a walk gives is that of the n-th file block, and its data start and
      size delimit that block's own data area. */
  lemma {:induction false} FilesDelimitTheirData(before: Octets, blocks: seq<Block>, crc: Checksum)
    requires Visit(blocks, crc, |before|).Ok?
    ensures DelimitAll(before + Bytes(blocks, crc), FilesIn(Visit(blocks, crc, |before|)), FileBlocks(blocks))
    decreases |blocks|
  {
    hide *;
    if blocks == [] {
      NoBlocks(before, crc);
    } else {
      var b, rest := blocks[0], blocks[1..];
      var start, after := |before| + 4 + |Covered(b)|, before + BlockBytes(b, crc);
      var s := before + Bytes(blocks, crc);
      BytesSplit(before, blocks, crc);
      BlockSize(b, crc);
      VisitFiles(blocks, crc, |before|);
      NoneDelimited(s);
      if b.kind != 5 {
        FilesDelimitTheirData(after, rest, crc);
      }
      if b.kind == 2 {
        var info := FileBody(b.body, ExtraSize(b)).value;
        FirstDelimits(before, b, Bytes(rest, crc), crc, info);
        FileHeaderIs(b, start);
        DelimitMore(s, File(info, start, |b.data|), b,
                    FilesIn(Visit(rest, crc, |after|)), FileBlocks(rest));
      }
    }
  }

  lemma NoneDelimited(s: Octets)
    ensures DelimitAll(s, [], [])
  {
  }

  lemma NoBlocks(s: Octets, crc: Checksum)
    ensures DelimitAll(s + Bytes([], crc), FilesIn(Visit([], crc, |s|)), FileBlocks([]))
  {
  }

  lemma FilesOfMore(here: seq<Header>, more: seq<Header>)
    requires |here| <= 1
    ensures FilesOf(here + more) == FilesOf(here) + FilesOf(more)
  {
    if here == [] {
      assert here + more == more;
    } else {
      assert (here + more)[1..] == more && here[1..] == [];
    }
  }

  /** The file headers of a visit that may have failed. */
  function FilesIn(visit: Result<seq<Header>, RarError>): seq<Header> {
    if visit.Ok? then FilesOf(visit.value) else []
  }

  /** The header of a file block whose body can be read. */
  function FileHeader(b: Block, dataStart: nat): seq<Header> {
    match FileBody(b.body, ExtraSize(b))
    case Ok(info) => [File(info, dataStart, |b.data|)]
    case Err(_) => []
  }

  /** The file headers of a visit, and the file blocks, from the first block on. */
  lemma VisitFiles(blocks: seq<Block>, crc: Checksum, pos: nat)
    requires blocks != [] && Visit(blocks, crc, pos).Ok?
    ensures
      var b, rest := blocks[0], Visit(blocks[1..], crc, pos + |BlockBytes(blocks[0], crc)|);
      var files := FilesIn(Visit(blocks, crc, pos));
      && (b.kind == 5 ==> files == [] && FileBlocks(blocks) == [])
      && (b.kind != 5 ==> rest.Ok?)
      && (b.kind == 2 ==>
            && FileBody(b.body, ExtraSize(b)).Ok?
            && files == FileHeader(b, pos + 4 + |Covered(b)|) + FilesIn(rest)
            && FileBlocks(blocks) == [b] + FileBlocks(blocks[1..]))
      && (b.kind != 2 && b.kind != 5 ==> files == FilesIn(rest) && FileBlocks(blocks) == FileBlocks(blocks[1..]))
  {
    hide *;
    var b := blocks[0];
    VisitTurn(blocks, crc, pos);
    OnlyFilesAreFiles(b.kind, b.body, ExtraSize(b), pos + 4 + |Covered(b)|, |b.data|);
    FilesOnward(BodyOf(b.kind, b.body, ExtraSize(b), pos + 4 + |Covered(b)|, |b.data|), b.kind,
                Visit(blocks[1..], crc, pos + |BlockBytes(b, crc)|));
    FileHeaderIs(b, pos + 4 + |Covered(b)|);
    FileBlocksSplit(blocks);
  }

  lemma FileHeaderIs(b: Block, dataStart: nat)
    ensures FileBody(b.body, ExtraSize(b)).Ok? ==>
      FileHeader(b, dataStart) == [File(FileBody(b.body, ExtraSize(b)).value, dataStart, |b.data|)]
  {
    hide FileBody, ExtraSize;
  }

  lemma FileBlocksSplit(blocks: seq<Block>)
    requires blocks != []
    ensures blocks[0].kind == 5 ==> FileBlocks(blocks) == []
    ensures blocks[0].kind == 2 ==> FileBlocks(blocks) == [blocks[0]] + FileBlocks(blocks[1..])
    ensures blocks[0].kind != 2 && blocks[0].kind != 5 ==> FileBlocks(blocks) == FileBlocks(blocks[1..])
  {
  }

  /** The file headers of a visit are those of its first block and of the rest. */
  lemma FilesOnward(header: Result<Option<Header>, RarError>, kind: nat, more: Result<seq<Header>, RarError>)
    requires Onward(header, kind, more).Ok?
    ensures header.Ok?
    ensures
      var files := FilesIn(Onward(header, kind, more));
      var here := if header.value.Some? && header.value.value.File? then [header.value.value] else [];
      && (kind == 5 ==> files == here)
      && (kind != 5 ==> more.Ok? && files == here + FilesIn(more))
  {
    var here := if header.value.Some? then [header.value.value] else [];
    OneFile(here);
    if kind != 5 {
      FilesOfMore(here, more.value);
    }
  }

  lemma OneFile(here: seq<Header>)
    requires |here| <= 1
    ensures FilesOf(here) == if here != [] && here[0].File? then here else []
  {
    assert here != [] ==> here[1..] == [];
  }

  lemma OnlyFilesAreFiles(kind: nat, body: Octets, extraSize: nat, dataStart: nat, dataSize: nat)
    ensures
      var r, info := BodyOf(kind, body, extraSize, dataStart, dataSize), FileBody(body, extraSize);
      && (kind == 2 && r.Ok? ==> info.Ok? && r.value == Some(File(info.value, dataStart, dataSize)))
      && (kind != 2 && r.Ok? && r.value.Some? ==> !r.value.value.File?)
  {
    hide FileBody, ArchiveBody, EndBody, EncryptionBody;
    ArchiveIsNoFile(body);
    EndIsNoFile(body);
  }

  lemma ArchiveIsNoFile(body: Octets)
    ensures ArchiveBody(body).Ok? ==> !ArchiveBody(body).value.File?
  {
    hide Read, Bit, AsI32;
  }

  lemma EndIsNoFile(body: Octets)
    ensures EndBody(body).Ok? ==> !EndBody(body).value.File?
  {
    hide Read, Bit;
  }

  // ---- Bodies ---------------------------------------------------------------------

  /** A record of an extra area as it is written: an encryption record, with whatever follows
      its fields, or one of another type. */
  datatype Record =
    | Encrypted(version: nat, flags: nat, what: Encryption, tail: Octets)
    | Other(kind: nat, payload: Octets)

  ghost predicate RecordFits(r: Record) {
    && |RecordInner(r)| < U64
    && match r
       case Encrypted(version, flags, what, _) =>
         && version < U64 && flags < U64
         && |what.salt| == 16 && |what.iv| == 16 && what.usePswCheck == Bit(flags, 1)
         && |what.pswCheck| == (if what.usePswCheck then 12 else 0)
       case Other(kind, _) => kind < U64 && kind != 1
  }

  function EncryptionBytes(version: nat, flags: nat, what: Encryption, tail: Octets): Octets {
    Encode(version) + (Encode(flags) + ([what.lg2Count] + (what.salt + (what.iv + (what.pswCheck + tail)))))
  }

  function RecordKind(r: Record): nat {
    if r.Encrypted? then 1 else r.kind
  }

  function Payload(r: Record): Octets {
    match r
    case Encrypted(version, flags, what, tail) => EncryptionBytes(version, flags, what, tail)
    case Other(_, payload) => payload
  }

  /** What a record's size counts. */
  function RecordInner(r: Record): Octets {
    Encode(RecordKind(r)) + Payload(r)
  }

  function RecordBytes(r: Record): Octets {
    Encode(|RecordInner(r)|) + RecordInner(r)
  }

  function ExtraBytes(records: seq<Record>): Octets {
    if records == [] then [] else RecordBytes(records[0]) + ExtraBytes(records[1..])
  }

  /** The last encryption record, if there is one. */
  function LastEncryption(records: seq<Record>, found: Option<Encryption>): Option<Encryption> {
    if records == [] then found
    else LastEncryption(records[1..], if records[0].Encrypted? then Some(records[0].what) else found)
  }

  /** An encryption record reads back, however long what follows its fields is. */
  lemma EncryptionReadsBack(version: nat, flags: nat, what: Encryption, tail: Octets)
    requires version < U64 && flags < U64 && |what.salt| == 16 && |what.iv| == 16
    requires what.usePswCheck == Bit(flags, 1) && |what.pswCheck| == (if what.usePswCheck then 12 else 0)
    ensures EncryptionRecord(EncryptionBytes(version, flags, what, tail)) == Ok(what)
  {
    hide Read, Take, Encode, Bit;
    var r5 := what.pswCheck + tail;
    var r4 := what.iv + r5;
    var r3 := what.salt + r4;
    var r2 := [what.lg2Count] + r3;
    var r1 := Encode(flags) + r2;
    ReadInvertsEncode(version, r1);
    ReadInvertsEncode(flags, r2);
    TakeReads([what.lg2Count], r3);
    TakeReads(what.salt, r4);
    TakeReads(what.iv, r5);
    TakeReads(what.pswCheck, tail);
  }

  /** A tail of what follows leaves the encryption record as it is. */
  lemma EncryptionTail(version: nat, flags: nat, what: Encryption, tail: Octets, more: Octets)
    ensures EncryptionBytes(version, flags, what, tail) + more == EncryptionBytes(version, flags, what, tail + more)
  {
    var a, b, c, d := Encode(version), Encode(flags), [what.lg2Count], what.salt;
    hide Encode;
    Assoc(what.pswCheck, tail, more);
    Assoc(what.iv, what.pswCheck + tail, more);
    Assoc(d, what.iv + (what.pswCheck + tail), more);
    Assoc(c, d + (what.iv + (what.pswCheck + tail)), more);
    Assoc(b, c + (d + (what.iv + (what.pswCheck + tail))), more);
    Assoc(a, b + (c + (d + (what.iv + (what.pswCheck + tail)))), more);
  }

  lemma FromAfter(before: Octets, rest: Octets)
    ensures From(before + rest, |before|) == rest
  {
  }

  /** A record reads back where it is written. */
  lemma RecordReadsBack(before: Octets, r: Record, rest: Octets)
    requires RecordFits(r)
    ensures RecordAt(before + (RecordBytes(r) + rest), |before|)
         == Some((RecordKind(r), Payload(r) + rest, |before| + |RecordBytes(r)|))
  {
    var size, kind, payload := |RecordInner(r)|, RecordKind(r), Payload(r);
    RecordParts(r, rest);
    hide *;
    FromAfter(before, RecordBytes(r) + rest);
    ReadInvertsEncode(size, Encode(kind) + (payload + rest));
    ReadInvertsEncode(kind, payload + rest);
    RecordAtMeans(before + (RecordBytes(r) + rest), |before|);
  }

  lemma RecordParts(r: Record, rest: Octets)
    requires RecordFits(r)
    ensures RecordBytes(r) + rest == Encode(|RecordInner(r)|) + (Encode(RecordKind(r)) + (Payload(r) + rest))
    ensures |RecordBytes(r)| == |Encode(|RecordInner(r)|)| + |RecordInner(r)|
    ensures |RecordInner(r)| == |Encode(RecordKind(r))| + |Payload(r)|
    ensures |RecordInner(r)| < U64 && RecordKind(r) < U64
  {
    hide Encode, Payload;
    Assoc(Encode(RecordKind(r)), Payload(r), rest);
    Assoc(Encode(|RecordInner(r)|), RecordInner(r), rest);
  }

  lemma RecordAtMeans(body: Octets, pos: nat)
    ensures
      var size := Read(From(body, pos));
      size.Ok? ==>
        var kind := Read(size.value.1);
        kind.Ok? ==>
          RecordAt(body, pos)
          == Some((kind.value.0, kind.value.1, pos + |From(body, pos)| - |size.value.1| + size.value.0))
  {
    hide Read, From;
  }

  /** An extra area reads back: the last of its encryption records is found. */
  lemma {:induction false} ExtraReadsBack(
      before: Octets, records: seq<Record>, after: Octets, found: Option<Encryption>)
    requires forall i :: 0 <= i < |records| ==> RecordFits(records[i])
    ensures ExtraFrom(before + (ExtraBytes(records) + after), |before|, |before| + |ExtraBytes(records)|, found)
         == Ok(LastEncryption(records, found))
    decreases |records|
  {
    hide *;
    if records == [] {
      NoRecords(before, after, found);
    } else {
      var r, rest := records[0], ExtraBytes(records[1..]);
      var more := if r.Encrypted? then Some(r.what) else found;
      ExtraSplit(records, found);
      Assoc(RecordBytes(r), rest, after);
      Assoc(before, RecordBytes(r), rest + after);
      RecordReadsBack(before, r, rest + after);
      SomeBytes(r);
      if r.Encrypted? {
        PayloadReadsBack(r, rest + after);
      }
      ExtraTurn(before + (ExtraBytes(records) + after), |before|, |before| + |ExtraBytes(records)|, found);
      ExtraReadsBack(before + RecordBytes(r), records[1..], after, more);
    }
  }

  lemma NoRecords(before: Octets, after: Octets, found: Option<Encryption>)
    ensures ExtraFrom(before + (ExtraBytes([]) + after), |before|, |before| + |ExtraBytes([])|, found)
         == Ok(LastEncryption([], found))
  {
    hide RecordAt, EncryptionRecord;
  }

  lemma ExtraSplit(records: seq<Record>, found: Option<Encryption>)
    requires records != []
    ensures ExtraBytes(records) == RecordBytes(records[0]) + ExtraBytes(records[1..])
    ensures LastEncryption(records, found)
         == LastEncryption(records[1..], if records[0].Encrypted? then Some(records[0].what) else found)
  {
    hide RecordBytes;
  }

  /** One turn through an extra area. */
  lemma ExtraTurn(body: Octets, pos: nat, end: nat, found: Option<Encryption>)
    requires pos < end && RecordAt(body, pos).Some?
    requires RecordAt(body, pos).value.0 == 1 ==> EncryptionRecord(RecordAt(body, pos).value.1).Ok?
    ensures
      var (kind, rest, next) := RecordAt(body, pos).value;
      ExtraFrom(body, pos, end, found)
      == ExtraFrom(body, next, end, if kind == 1 then Some(EncryptionRecord(rest).value) else found)
  {
    hide RecordAt, EncryptionRecord;
  }

  lemma SomeBytes(r: Record)
    requires RecordFits(r)
    ensures |RecordBytes(r)| > 0
    ensures RecordKind(r) == 1 <==> r.Encrypted?
  {
    hide Payload;
  }

  lemma PayloadReadsBack(r: Record, more: Octets)
    requires r.Encrypted? && RecordFits(r)
    ensures EncryptionRecord(Payload(r) + more) == Ok(r.what)
  {
    hide EncryptionRecord, EncryptionBytes, RecordInner;
    EncryptionTail(r.version, r.flags, r.what, r.tail, more);
    EncryptionReadsBack(r.version, r.flags, r.what, r.tail + more);
  }

  /** The fields of a file header as they are written. */
  datatype FileFields = FileFields(
    flags: nat, unpacked: nat, attributes: nat, mtime: Octets, crc: Octets,
    compression: nat, hostOs: nat, name: Octets)

  ghost predicate FieldsFit(f: FileFields) {
    && f.flags < U64 && f.unpacked < U64 && f.attributes < U64
    && f.compression < U64 && f.hostOs < U64 && |f.name| < U64
    && |f.mtime| == (if Bit(f.flags, 2) then 4 else 0)
    && |f.crc| == (if Bit(f.flags, 4) then 4 else 0)
  }

  function NameBytes(f: FileFields, extra: Octets): Octets {
    Encode(f.compression) + (Encode(f.hostOs) + (Encode(|f.name|) + (f.name + extra)))
  }

  /** A file header's body, its extra area last. */
  function FileBytes(f: FileFields, extra: Octets): Octets {
    Encode(f.flags) + (Opt(!Bit(f.flags, 8), f.unpacked)
                       + (Encode(f.attributes) + (f.mtime + (f.crc + NameBytes(f, extra)))))
  }

  function InfoOf(f: FileFields, encryption: Option<Encryption>): FileInfo {
    FileInfo(f.name, if Bit(f.flags, 8) then 0 else f.unpacked, f.compression / 128 % 16,
             Bit(f.flags, 1), encryption.Some?, Bit(f.compression, 64), encryption)
  }

  lemma FileStartReadsBack(f: FileFields, extra: Octets)
    requires FieldsFit(f)
    ensures FileStart(FileBytes(f, extra))
         == Ok((f.flags, if Bit(f.flags, 8) then 0 else f.unpacked, NameBytes(f, extra)))
  {
    hide Read, Take, Encode, Opt, ReadIf, Bit, NameBytes;
    var r5 := NameBytes(f, extra);
    var r4 := f.crc + r5;
    var r3 := f.mtime + r4;
    var r2 := Encode(f.attributes) + r3;
    var r1 := Opt(!Bit(f.flags, 8), f.unpacked) + r2;
    ReadInvertsEncode(f.flags, r1);
    OptReads(!Bit(f.flags, 8), f.unpacked, r2);
    ReadInvertsEncode(f.attributes, r3);
    TakeReads(f.mtime, r4);
    TakeReads(f.crc, r5);
  }

  lemma FileNameReadsBack(f: FileFields, extra: Octets)
    requires FieldsFit(f)
    ensures FileName(NameBytes(f, extra)) == Ok((f.compression, f.name, extra))
  {
    hide Read, Take, Encode, Bit;
    ReadInvertsEncode(f.compression, Encode(f.hostOs) + (Encode(|f.name|) + (f.name + extra)));
    ReadInvertsEncode(f.hostOs, Encode(|f.name|) + (f.name + extra));
    ReadInvertsEncode(|f.name|, f.name + extra);
    TakeReads(f.name, extra);
  }

  /** A file header's body reads back with whatever its extra area holds: it fails exactly
      when an encryption record of that area is cut. */
  lemma FileBodyReadsBack(f: FileFields, extra: Octets, extraSize: nat)
    requires FieldsFit(f)
    ensures |extra| <= |FileBytes(f, extra)|
    ensures
      var start := |FileBytes(f, extra)| - |extra|;
      var found := ExtraFrom(FileBytes(f, extra), start, start + extraSize, None);
      && (found.Err? ==> FileBody(FileBytes(f, extra), extraSize) == Err(found.error))
      && (found.Ok? ==> FileBody(FileBytes(f, extra), extraSize) == Ok(InfoOf(f, found.value)))
  {
    hide FileStart, FileName, ExtraFrom, NameBytes, Encode, Opt, Bit;
    FileStartReadsBack(f, extra);
    FileNameReadsBack(f, extra);
    FileBytesLength(f, extra);
  }

  lemma FileBytesLength(f: FileFields, extra: Octets)
    ensures |extra| <= |FileBytes(f, extra)|
  {
    hide Encode, Opt, Bit;
  }

  /** With well-formed records it reads back with the last encryption record among them. */
  lemma FileWithRecordsReadsBack(f: FileFields, records: seq<Record>)
    requires FieldsFit(f) && forall i :: 0 <= i < |records| ==> RecordFits(records[i])
    ensures FileBody(FileBytes(f, ExtraBytes(records)), |ExtraBytes(records)|)
         == Ok(InfoOf(f, LastEncryption(records, None)))
  {
    hide *;
    var extra := ExtraBytes(records);
    FileBodyReadsBack(f, extra, |extra|);
    var before := FileBefore(f, extra);
    ExtraReadsBack(before, records, [], None);
    NothingAfter(extra);
  }

  lemma NothingAfter(s: Octets)
    ensures s + [] == s
  {
  }

  /** A file header's body is something, then its extra area. */
  lemma FileBefore(f: FileFields, extra: Octets) returns (before: Octets)
    ensures before + extra == FileBytes(f, extra)
  {
    hide Encode, Opt, Bit;
    var n1 := Encode(f.compression) + (Encode(f.hostOs) + (Encode(|f.name|) + f.name));
    assert n1 + extra == NameBytes(f, extra);
    before := Encode(f.flags) + (Opt(!Bit(f.flags, 8), f.unpacked) + (Encode(f.attributes) + (f.mtime + (f.crc + n1))));
    hide NameBytes;
    Assoc(f.crc, n1, extra);
    Assoc(f.mtime, f.crc + n1, extra);
    Assoc(Encode(f.attributes), f.mtime + (f.crc + n1), extra);
    Assoc(Opt(!Bit(f.flags, 8), f.unpacked), Encode(f.attributes) + (f.mtime + (f.crc + n1)), extra);
    Assoc(Encode(f.flags),
          Opt(!Bit(f.flags, 8), f.unpacked) + (Encode(f.attributes) + (f.mtime + (f.crc + n1))), extra);
  }

  /** An archive header's body reads back: its volume number when it has one, and that it is
      of the first volume unless it is of a later one. */
  lemma ArchiveBodyReadsBack(flags: nat, number: nat, tail: Octets)
    requires flags < U64 && number < U64
    ensures
      var numbered := Bit(flags, 2);
      ArchiveBody(Encode(flags) + (Opt(numbered, number) + tail))
      == Ok(Archive(!Bit(flags, 1) || (numbered && AsI32(number) == 0),
                    if numbered then Some(AsI32(number)) else None))
  {
    hide Read, Encode, Bit, AsI32;
    ReadInvertsEncode(flags, Opt(Bit(flags, 2), number) + tail);
    ReadInvertsEncode(number, tail);
  }

  lemma EndBodyReadsBack(flags: nat, tail: Octets)
    requires flags < U64
    ensures EndBody(Encode(flags) + tail) == Ok(EndArchive(if Bit(flags, 1) then Some(1) else None))
  {
    hide Read, Encode, Bit;
    ReadInvertsEncode(flags, tail);
  }

  // ---- Whole archives -------------------------------------------------------------

  /** A header as its writer means it, with the data that follows it. */
  datatype Entry =
    | ArchiveEntry(flags: nat, number: nat, tail: Octets)
    | FileEntry(fields: FileFields, records: seq<Record>)
    | ServiceEntry(fields: FileFields, records: seq<Record>)
    | EndEntry(flags: nat, tail: Octets)
    | UnknownEntry(kind: nat, body: Octets)

  ghost predicate EntryFits(e: Entry) {
    match e
    case ArchiveEntry(flags, number, _) => flags < U64 && number < U64
    case FileEntry(fields, records) => FieldsFit(fields) && forall i :: 0 <= i < |records| ==> RecordFits(records[i])
    case ServiceEntry(fields, records) => FieldsFit(fields) && forall i :: 0 <= i < |records| ==> RecordFits(records[i])
    case EndEntry(flags, _) => flags < U64
    case UnknownEntry(kind, _) => kind == 0 || kind > 5
  }

  function EntryKind(e: Entry): nat {
    match e
    case ArchiveEntry(_, _, _) => 1
    case FileEntry(_, _) => 2
    case ServiceEntry(_, _) => 3
    case EndEntry(_, _) => 5
    case UnknownEntry(kind, _) => kind
  }

  function EntryBody(e: Entry): Octets {
    match e
    case ArchiveEntry(flags, number, tail) => Encode(flags) + (Opt(Bit(flags, 2), number) + tail)
    case FileEntry(fields, records) => FileBytes(fields, ExtraBytes(records))
    case ServiceEntry(fields, records) => FileBytes(fields, ExtraBytes(records))
    case EndEntry(flags, tail) => Encode(flags) + tail
    case UnknownEntry(_, body) => body
  }

  /** The size of the extra area a file or service header has. */
  function EntryExtra(e: Entry): nat {
    if e.FileEntry? || e.ServiceEntry? then |ExtraBytes(e.records)| else 0
  }

  /** What a parse is to make of an entry whose data starts at `dataStart`. */
  function Meant(e: Entry, dataStart: nat, dataSize: nat): Option<Header> {
    match e
    case ArchiveEntry(flags, number, _) =>
      var numbered := Bit(flags, 2);
      Some(Archive(!Bit(flags, 1) || (numbered && AsI32(number) == 0),
                   if numbered then Some(AsI32(number)) else None))
    case FileEntry(fields, records) => Some(File(InfoOf(fields, LastEncryption(records, None)), dataStart, dataSize))
    case ServiceEntry(fields, _) => Some(Service(fields.name, dataSize))
    case EndEntry(flags, _) => Some(EndArchive(if Bit(flags, 1) then Some(1) else None))
    case UnknownEntry(_, _) => None
  }

  /** A block that an entry is written as: the right type, body and extra area size. */
  ghost predicate Writes(b: Block, e: Entry) {
    && WellFormed(b) && EntryFits(e)
    && b.kind == EntryKind(e) && b.body == EntryBody(e)
    && (e.FileEntry? || e.ServiceEntry? ==> ExtraSize(b) == EntryExtra(e))
  }

  lemma EntryReadsBack(b: Block, e: Entry, dataStart: nat)
    requires Writes(b, e)
    ensures BodyOf(b.kind, b.body, ExtraSize(b), dataStart, |b.data|) == Ok(Meant(e, dataStart, |b.data|))
  {
    hide WellFormed, ExtraSize, FileBody, ArchiveBody, EndBody, EncryptionBody, FileBytes, ExtraBytes,
         Encode, Opt, Bit, AsI32, LastEncryption, InfoOf;
    match e
    case ArchiveEntry(flags, number, tail) => ArchiveBodyReadsBack(flags, number, tail);
    case FileEntry(fields, records) => FileWithRecordsReadsBack(fields, records);
    case ServiceEntry(fields, records) =>
      FileWithRecordsReadsBack(fields, records);
      NameOfInfo(fields, LastEncryption(records, None));
    case EndEntry(flags, tail) => EndBodyReadsBack(flags, tail);
    case UnknownEntry(_, _) =>
  }

  lemma NameOfInfo(f: FileFields, encryption: Option<Encryption>)
    ensures InfoOf(f, encryption).name == f.name
  {
  }

  /** The headers some entries mean, in order, up to the end entry; the first block is at
      `pos`. */
  function MeantAll(entries: seq<Entry>, blocks: seq<Block>, crc: Checksum, pos: nat): seq<Header>
    requires |entries| == |blocks|
  {
    if entries == [] then []
    else
      var b := blocks[0];
      var header := Meant(entries[0], pos + 4 + |Covered(b)|, |b.data|);
      (if header.Some? then [header.value] else [])
      + if entries[0].EndEntry? then [] else MeantAll(entries[1..], blocks[1..], crc, pos + |BlockBytes(b, crc)|)
  }

  lemma {:induction false} VisitMeansEntries(entries: seq<Entry>, blocks: seq<Block>, crc: Checksum, pos: nat)
    requires |entries| == |blocks| && forall i :: 0 <= i < |blocks| ==> Writes(blocks[i], entries[i])
    ensures Visit(blocks, crc, pos) == Ok(MeantAll(entries, blocks, crc, pos))
    decreases |blocks|
  {
    hide *;
    if blocks == [] {
      NothingMeant(entries, blocks, crc, pos);
    } else {
      var b, e := blocks[0], entries[0];
      assert Writes(b, e);
      EntryReadsBack(b, e, pos + 4 + |Covered(b)|);
      EndIsFive(b, e);
      assert forall i :: 0 <= i < |blocks[1..]| ==>
        blocks[1..][i] == blocks[i + 1] && entries[1..][i] == entries[i + 1];
      VisitMeansEntries(entries[1..], blocks[1..], crc, pos + |BlockBytes(b, crc)|);
      VisitTurn(blocks, crc, pos);
      MeantTurn(entries, blocks, crc, pos);
    }
  }

  lemma NothingMeant(entries: seq<Entry>, blocks: seq<Block>, crc: Checksum, pos: nat)
    requires entries == [] && blocks == []
    ensures Visit(blocks, crc, pos) == Ok(MeantAll(entries, blocks, crc, pos))
  {
  }

  lemma MeantTurn(entries: seq<Entry>, blocks: seq<Block>, crc: Checksum, pos: nat)
    requires |entries| == |blocks| && blocks != []
    ensures
      var b := blocks[0];
      var header := Meant(entries[0], pos + 4 + |Covered(b)|, |b.data|);
      var more := MeantAll(entries[1..], blocks[1..], crc, pos + |BlockBytes(b, crc)|);
      forall kind: nat :: (kind == 5 <==> entries[0].EndEntry?) ==>
        Ok(MeantAll(entries, blocks, crc, pos)) == Onward(Ok(header), kind, Ok(more))
  {
    hide Meant, Covered, BlockBytes;
    var b := blocks[0];
    var header := Meant(entries[0], pos + 4 + |Covered(b)|, |b.data|);
    var here := if header.Some? then [header.value] else [];
    assert here + [] == here;
  }

  lemma EndIsFive(b: Block, e: Entry)
    requires Writes(b, e)
    ensures b.kind == 5 <==> e.EndEntry?
  {
  }

  lemma {:induction false} WritersWriteWell(entries: seq<Entry>, blocks: seq<Block>)
    requires |entries| == |blocks| && forall i :: 0 <= i < |blocks| ==> Writes(blocks[i], entries[i])
    ensures AllWellFormed(blocks)
  {
    forall i | 0 <= i < |blocks| ensures WellFormed(blocks[i]) {
      assert Writes(blocks[i], entries[i]);
    }
  }

  /** The round trip of whole archives: whatever entries are written, with whatever flags,
      extra records and data, a parse gives back exactly what they mean, in order, up to the
      end entry, each with its data area's start and size. */
  lemma ParseGivesBackTheEntries(entries: seq<Entry>, blocks: seq<Block>, crc: Checksum)
    requires |entries| == |blocks| && forall i :: 0 <= i < |blocks| ==> Writes(blocks[i], entries[i])
    requires Fits32(crc)
    ensures Parsed(ArchiveBytes(blocks, crc), crc) == Ok(MeantAll(entries, blocks, crc, 8))
  {
    hide Writes, AllWellFormed, Fits32, Parsed, Visit;
    WritersWriteWell(entries, blocks);
    ParseVisitsEachBlock(blocks, crc);
    VisitMeansEntries(entries, blocks, crc, 8);
  }

  // ---- Damage ---------------------------------------------------------------------

  /** A block whose stored checksum is not that of its header ends the walk with an error that
      names the place, whatever comes after it. */
  lemma BadChecksumIsRefused(before: Octets, sum: Octets, b: Block, rest: Octets, crc: Checksum)
    requires WellFormed(b) && |sum| == 4 && Le32(sum) != crc(Covered(b))
    ensures Walk(before + (sum + (Covered(b) + b.data) + rest), crc, |before|) == Err(InvalidHeaderCrc(|before|))
  {
    BlockAt(before, sum, Covered(b), b.data, rest);
    HeadReadsBack(b, b.data + rest);
    hide HeadOf, Covered, Le32, WellFormed, BodyOf, After;
  }

  /** Only what begins with the magic parses; anything else of its length has no signature. */
  lemma OnlyArchivesParse(s: Octets, crc: Checksum)
    ensures Parsed(s, crc).Ok? ==> |s| >= 8 && s[..8] == [0x52, 0x61, 0x72, 0x21, 0x1A, 0x07, 0x01, 0x00]
    ensures |s| < 8 ==> Parsed(s, crc) == Err(UnexpectedEof)
    ensures |s| >= 8 && s[..8] != [0x52, 0x61, 0x72, 0x21, 0x1A, 0x07, 0x01, 0x00] ==>
      Parsed(s, crc) == Err(SignatureNotFound)
  {
    hide Walk;
  }

  // ---- Encrypted headers ----------------------------------------------------------

  /** What an encryption header ends a parse without a password with: its version when that
      is not known, a lack of bytes for its salt and check, or that the headers are
      encrypted. */
  lemma EncryptionHeaderEnds(version: nat, flags: nat, rest: Octets)
    requires version < U64 && flags < U64
    ensures
      var error := EncryptionBody(Encode(version) + (Encode(flags) + rest));
      && (error == UnsupportedEncryptionVersion(version) <==> version > 0)
      && (error == UnexpectedEof <==> version == 0 && |rest| < (if Bit(flags, 1) then 29 else 17))
      && (error == EncryptedHeaders <==> version == 0 && |rest| >= (if Bit(flags, 1) then 29 else 17))
  {
    hide Read, Encode, Bit;
    ReadInvertsEncode(version, Encode(flags) + rest);
    ReadInvertsEncode(flags, rest);
  }

  /** No archive with an encryption header before its end block parses without a password. */
  lemma EncryptedNeverParses(blocks: seq<Block>, crc: Checksum, i: nat)
    requires AllWellFormed(blocks) && Fits32(crc)
    requires i < |blocks| && blocks[i].kind == 4 && forall j :: 0 <= j < i ==> blocks[j].kind != 5
    ensures Parsed(ArchiveBytes(blocks, crc), crc).Err?
  {
    hide AllWellFormed, Fits32, Parsed, Visit;
    ParseVisitsEachBlock(blocks, crc);
    EncryptedEndsTheVisit(blocks, crc, 8, i);
  }

  lemma {:induction false} EncryptedEndsTheVisit(blocks: seq<Block>, crc: Checksum, pos: nat, i: nat)
    requires i < |blocks| && blocks[i].kind == 4 && forall j :: 0 <= j < i ==> blocks[j].kind != 5
    ensures Visit(blocks, crc, pos).Err?
    decreases |blocks|
  {
    hide FileBody, ArchiveBody, EncryptionBody, Covered, BlockBytes, Visit;
    VisitTurn(blocks, crc, pos);
    if i > 0 {
      EncryptedEndsTheVisit(blocks[1..], crc, pos + |BlockBytes(blocks[0], crc)|, i - 1);
    }
  }

  /** And when what comes before it can be read, its own error is the parse's. */
  lemma EncryptionIsTold(entries: seq<Entry>, blocks: seq<Block>, crc: Checksum)
    requires AllWellFormed(blocks) && Fits32(crc) && |entries| < |blocks| && blocks[|entries|].kind == 4
    requires forall i :: 0 <= i < |entries| ==> Writes(blocks[i], entries[i]) && !entries[i].EndEntry?
    ensures Parsed(ArchiveBytes(blocks, crc), crc) == Err(EncryptionBody(blocks[|entries|].body))
  {
    hide Writes, AllWellFormed, Fits32, Parsed, Visit, EncryptionBody;
    ParseVisitsEachBlock(blocks, crc);
    EncryptionIsVisited(entries, blocks, crc, 8);
  }

  lemma {:induction false} EncryptionIsVisited(entries: seq<Entry>, blocks: seq<Block>, crc: Checksum, pos: nat)
    requires |entries| < |blocks| && blocks[|entries|].kind == 4
    requires forall i :: 0 <= i < |entries| ==> Writes(blocks[i], entries[i]) && !entries[i].EndEntry?
    ensures Visit(blocks, crc, pos) == Err(EncryptionBody(blocks[|entries|].body))
    decreases |blocks|
  {
    hide FileBody, ArchiveBody, EncryptionBody, Covered, BlockBytes, Visit, EntryBody, Meant, EntryFits, EntryExtra,
         WellFormed;
    VisitTurn(blocks, crc, pos);
    if entries != [] {
      var b, e := blocks[0], entries[0];
      assert Writes(b, e);
      EntryReadsBack(b, e, pos + 4 + |Covered(b)|);
      EndIsFive(b, e);
      EncryptionIsVisited(entries[1..], blocks[1..], crc, pos + |BlockBytes(b, crc)|);
    }
  }

  /** A volume number comes back as the 32-bit signed integer it is equal to modulo 2^32: as
      itself below 2^31, and less 2^32 up to 2^32. */
  lemma VolumeNumberComesBack(v: nat)
    ensures -0x8000_0000 <= AsI32(v) < 0x8000_0000
    ensures (v - AsI32(v)) % 0x1_0000_0000 == 0
    ensures v < 0x8000_0000 ==> AsI32(v) == v
    ensures 0x8000_0000 <= v < 0x1_0000_0000 ==> AsI32(v) == v - 0x1_0000_0000
  {
  }
}
