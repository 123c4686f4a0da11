/**
 The CodeDirectory of an embedded code signature: its parser, and the transformation
 that gives an existing directory a Team ID, modern special slots and a donor's
 component hashes without touching the hashes of the code pages.
 */
module CodeDirectory {
  import opened Wrappers
  import opened BigEndian
  import Bits

  const MAGIC: nat := 0xfade0c02
  const EARLIEST: nat := 0x20001
  const SLOT_REQUIREMENTS: nat := 2
  const SLOT_ENTITLEMENTS: nat := 5
  const SLOT_DER_ENTITLEMENTS: nat := 7
  const MAX_SIGNING_STRING: nat := 4096
  const LARGEST_DIGEST: nat := 48

  /** What the parser learns.  Offsets are into the directory; an absent optional
      part has offset zero. */
  datatype Directory = Directory(
    version: nat,
    flags: nat,
    signingLimit: nat,
    hashOffset: nat,
    identifierOffset: nat,
    specialSlots: nat,
    codeSlots: nat,
    prefixEnd: nat,
    scatterOffset: nat,
    teamOffset: nat,
    preEncryptOffset: nat,
    linkageOffset: nat,
    linkageSize: nat,
    hashSize: nat,
    hashType: nat,
    pageSize: nat)

  function HeaderSize(version: nat): (n: nat) {
    if version >= 0x20600 then 108
    else if version >= 0x20500 then 96
    else if version >= 0x20400 then 88
    else if version >= 0x20300 then 64
    else if version >= 0x20200 then 52
    else if version >= 0x20100 then 48
    else 44
  }

  function HashSize(hashType: nat): nat {
    if hashType == 1 then 20
    else if hashType == 2 then 32
    else if hashType == 3 then 20
    else if hashType == 4 then 48
    else 0
  }

  /** The bytes a run of hashes takes. */
  function Span(slots: nat, size: nat): nat {
    slots * size
  }

  lemma Distribute(few: nat, many: nat, size: nat)
    requires few <= many
    ensures Span(many, size) == Span(few, size) + Span(many - few, size)
    ensures Span(1, size) == size
  {
  }

  // ----- Parsing ---------------------------------------------------------------------

  /** Long enough to hold the fields its version has. */
  predicate Framed(b: Bytes) {
    && |b| >= 44 && Word(b, 0) == MAGIC
    && Word(b, 4) == |b| && EARLIEST <= Word(b, 8) <= 0x20600
    && HeaderSize(Word(b, 8)) <= |b|
  }

  function Limit64(b: Bytes): nat
    requires Framed(b) && Word(b, 8) >= 0x20300
  {
    Word(b, 56) * WORD + Word(b, 60)
  }

  function Read(b: Bytes): (d: Directory)
    requires Framed(b)
  {
    var version := Word(b, 8);
    var hashSize := b[36] as nat;
    var special := Word(b, 24);
    var hashOffset := Word(b, 16);
    Directory(
      version,
      Word(b, 12),
      if version >= 0x20300 && Limit64(b) != 0 then Limit64(b) else Word(b, 32),
      hashOffset,
      Word(b, 20),
      special,
      Word(b, 28),
      if Span(special, hashSize) <= hashOffset then hashOffset - Span(special, hashSize) else 0,
      if version >= 0x20100 then Word(b, 44) else 0,
      if version >= 0x20200 then Word(b, 48) else 0,
      if version >= 0x20500 then Word(b, 92) else 0,
      if version >= 0x20600 then Word(b, 100) else 0,
      if version >= 0x20600 then Word(b, 104) else 0,
      hashSize,
      b[37] as nat,
      b[39] as nat)
  }

  /** One hash per page up to the signing limit, or one for all of it. */
  predicate CoverageOk(d: Directory) {
    if d.pageSize == 0 then d.codeSlots == if d.signingLimit != 0 then 1 else 0
    else d.pageSize < 64 && d.signingLimit != 0 && d.codeSlots == (d.signingLimit - 1) / Bits.Pow2(d.pageSize) + 1
  }

  predicate HashesOk(d: Directory, length: nat) {
    && d.hashSize != 0 && d.hashSize == HashSize(d.hashType)
    && Span(d.specialSlots, d.hashSize) <= d.hashOffset <= length
    && Span(d.codeSlots, d.hashSize) == length - d.hashOffset
    && HeaderSize(d.version) <= d.prefixEnd
  }

  predicate SparesOk(b: Bytes)
    requires Framed(b)
  {
    && Word(b, 40) == 0
    && (Word(b, 8) >= 0x20300 ==> Word(b, 52) == 0)
  }

  /** A nonempty NUL-terminated string inside [from, to). */
  predicate StringOk(b: Bytes, from: nat, to: nat) {
    && from < to <= |b| && b[from] != 0
    && exists i :: from <= i < to && b[i] == 0
  }

  predicate ScatterEnds(b: Bytes, offset: nat, end: nat)
    requires end <= |b|
    decreases end - offset
  {
    offset + 24 <= end && (Word(b, offset) == 0 || ScatterEnds(b, offset + 24, end))
  }

  predicate OffsetsOk(b: Bytes, d: Directory)
    requires d.prefixEnd <= |b|
  {
    var header := HeaderSize(d.version);
    && header <= d.identifierOffset && StringOk(b, d.identifierOffset, d.prefixEnd)
    && (d.scatterOffset != 0 ==>
          header <= d.scatterOffset < d.prefixEnd && ScatterEnds(b, d.scatterOffset, d.prefixEnd))
    && (d.teamOffset != 0 ==> header <= d.teamOffset && StringOk(b, d.teamOffset, d.prefixEnd))
    && (d.preEncryptOffset != 0 ==>
          header <= d.preEncryptOffset && d.preEncryptOffset + Span(d.codeSlots, d.hashSize) <= d.prefixEnd)
    && (d.linkageOffset == 0 <==> d.linkageSize == 0)
    && (d.linkageOffset != 0 ==> header <= d.linkageOffset && d.linkageOffset + d.linkageSize <= d.prefixEnd)
  }

  function Parse(b: Bytes): (r: Option<Directory>) {
    if !Framed(b) then None
    else
      var d := Read(b);
      if CoverageOk(d) && HashesOk(d, |b|) && SparesOk(b) && d.prefixEnd <= |b| && OffsetsOk(b, d) then Some(d)
      else None
  }

  /** The scatter walk as the parser does it. */
  method FindScatterEnd(b: Bytes, from: nat, end: nat) returns (found: bool)
    requires end <= |b|
    ensures found == ScatterEnds(b, from, end)
  {
    var offset := from;
    while offset + 24 <= end
      invariant ScatterEnds(b, offset, end) == ScatterEnds(b, from, end)
    {
      if Word(b, offset) == 0 { return true; }
      offset := offset + 24;
    }
    return false;
  }

  // ----- What a directory says --------------------------------------------------------

  /** The NUL-terminated string at `at`. */
  function StringAt(b: Bytes, at: nat): Bytes
    decreases |b| - at
  {
    if at < |b| && b[at] != 0 then [b[at]] + StringAt(b, at + 1) else []
  }

  ghost predicate NoNul(text: Bytes) {
    forall i :: 0 <= i < |text| ==> text[i] != 0
  }

  function SlotStart(d: Directory, slot: nat): nat
    requires Span(slot, d.hashSize) <= d.hashOffset
  {
    d.hashOffset - Span(slot, d.hashSize)
  }

  lemma SlotFits(d: Directory, slot: nat)
    requires 1 <= slot <= d.specialSlots && Span(d.specialSlots, d.hashSize) <= d.hashOffset
    ensures d.hashSize <= Span(slot, d.hashSize) <= Span(d.specialSlots, d.hashSize)
  {
    hide Span;
    Distribute(slot, d.specialSlots, d.hashSize);
    Distribute(1, slot, d.hashSize);
  }

  /** The hash held for special slot `slot`; nothing if the directory has no such slot. */
  function Slot(b: Bytes, d: Directory, slot: nat): (h: Bytes)
    requires HashesOk(d, |b|)
  {
    if 1 <= slot <= d.specialSlots then SlotFits(d, slot); b[SlotStart(d, slot)..][..d.hashSize] else []
  }

  function CodeHashes(b: Bytes, d: Directory): (h: Bytes)
    requires HashesOk(d, |b|)
  {
    b[d.hashOffset..]
  }

  // ----- The transformation -----------------------------------------------------------

  /** The blobs a donor signature supplies.  Requirements may be absent. */
  datatype Donor = Donor(requirements: Option<Bytes>, entitlements: Bytes, derEntitlements: Bytes)

  /** A digest by hash type; what it computes does not matter here. */
  type Hash = (nat, Bytes) -> Bytes

  function Component(donor: Donor, slot: nat): Option<Bytes> {
    if slot == SLOT_REQUIREMENTS then donor.requirements
    else if slot == SLOT_ENTITLEMENTS then Some(donor.entitlements)
    else if slot == SLOT_DER_ENTITLEMENTS then Some(donor.derEntitlements)
    else None
  }

  predicate Replaced(slot: nat) {
    slot == SLOT_REQUIREMENTS || slot == SLOT_ENTITLEMENTS || slot == SLOT_DER_ENTITLEMENTS
  }

  /** The first bytes of the digest of `blob`, as many as the directory keeps. */
  function Digest(hash: Hash, d: Directory, blob: Bytes): (r: Bytes)
    ensures d.hashSize <= LARGEST_DIGEST ==> |r| == d.hashSize
  {
    var digest := hash(d.hashType, blob) + Zeros(LARGEST_DIGEST);
    if d.hashSize <= LARGEST_DIGEST then digest[..d.hashSize] else []
  }

  function ComponentHash(hash: Hash, d: Directory, donor: Donor, slot: nat): (r: Bytes)
    ensures d.hashSize <= LARGEST_DIGEST ==> |r| == d.hashSize
  {
    match Component(donor, slot)
    case Some(blob) => Digest(hash, d, blob)
    case None => Zeros(d.hashSize)
  }

  /** The ad-hoc bit is cleared where the platform wants a Team ID alone, set elsewhere. */
  function Flags(flags: nat, teamAlone: bool): (r: nat)
    requires flags < WORD
    ensures r < WORD && r % 2 == flags % 2 && r / 4 == flags / 4
    ensures r / 2 % 2 == if teamAlone then 0 else 1
  {
    var adHoc := flags / 2 % 2 == 1;
    if teamAlone && adHoc then flags - 2 else if !teamAlone && !adHoc then flags + 2 else flags
  }

  function NewVersion(d: Directory): nat {
    if d.version < 0x20200 then 0x20200 else d.version
  }

  function HeaderGrowth(d: Directory): nat {
    HeaderSize(NewVersion(d)) - HeaderSize(d.version)
  }

  function NewSpecialSlots(d: Directory): nat {
    if d.specialSlots < SLOT_DER_ENTITLEMENTS then SLOT_DER_ENTITLEMENTS else d.specialSlots
  }

  function SlotGrowth(d: Directory): nat {
    Span(NewSpecialSlots(d) - d.specialSlots, d.hashSize)
  }

  function Growth(d: Directory, team: Bytes): nat {
    HeaderGrowth(d) + |team| + 1 + SlotGrowth(d)
  }

  predicate CanTransform(length: nat, d: Directory, team: Bytes, sliceSize: nat, signatureOffset: nat) {
    && d.scatterOffset == 0
    && d.signingLimit <= signatureOffset && d.signingLimit <= sliceSize
    && 2 <= |team| + 1 <= MAX_SIGNING_STRING
    && length + Growth(d, team) < WORD
  }

  function Relocated(offset: nat, growth: nat): nat {
    if offset == 0 then 0 else offset + growth
  }

  /** What parsing the transformed directory must find. */
  function Result(d: Directory, team: Bytes, teamAlone: bool): Directory
    requires d.flags < WORD
  {
    d.(version := NewVersion(d),
       flags := Flags(d.flags, teamAlone),
       hashOffset := d.hashOffset + Growth(d, team),
       identifierOffset := d.identifierOffset + HeaderGrowth(d),
       specialSlots := NewSpecialSlots(d),
       prefixEnd := d.prefixEnd + HeaderGrowth(d) + |team| + 1,
       teamOffset := d.prefixEnd + HeaderGrowth(d),
       preEncryptOffset := Relocated(d.preEncryptOffset, HeaderGrowth(d)),
       linkageOffset := Relocated(d.linkageOffset, HeaderGrowth(d)))
  }

  // ----- Its layout ---------------------------------------------------------------------

  ghost predicate Ready(b: Bytes, d: Directory, team: Bytes) {
    && Parse(b) == Some(d)
    && d.scatterOffset == 0
    && 1 <= |team| && NoNul(team)
    && |b| + Growth(d, team) < WORD
  }

  lemma Sizes(b: Bytes, d: Directory, team: Bytes)
    requires Parse(b) == Some(d)
    ensures 44 <= HeaderSize(d.version) <= d.identifierOffset < d.prefixEnd <= d.hashOffset <= |b|
    ensures d.prefixEnd + Span(d.specialSlots, d.hashSize) == d.hashOffset
    ensures d.prefixEnd + HeaderGrowth(d) + |team| + 1 + Span(NewSpecialSlots(d), d.hashSize)
            == d.hashOffset + Growth(d, team)
    ensures HeaderSize(NewVersion(d)) == HeaderSize(d.version) + HeaderGrowth(d)
    ensures d.version >= 0x20200 ==> HeaderGrowth(d) == 0
    ensures 0 < d.hashSize <= LARGEST_DIGEST
    ensures d.version < WORD && d.flags < WORD
  {
    hide Span, Word, CoverageOk, ScatterEnds, SparesOk;
    Distribute(d.specialSlots, NewSpecialSlots(d), d.hashSize);
  }

  lemma ParsedIsRead(b: Bytes, d: Directory)
    requires Parse(b) == Some(d)
    ensures Framed(b) && d == Read(b)
  {
  }

  /** The parts of the source directory moved to their new places. */
  ghost function Moved(b: Bytes, d: Directory, team: Bytes): (r: Bytes)
    requires Ready(b, d, team)
    ensures |r| == |b| + Growth(d, team)
  {
    Sizes(b, d, team);
    var header := HeaderSize(d.version);
    var teamAt := d.prefixEnd + HeaderGrowth(d);
    Assemble(|b| + Growth(d, team), b[..header], HeaderSize(NewVersion(d)), b[header..d.prefixEnd],
      teamAt, team + [0], teamAt + |team| + 1 + SlotGrowth(d), b[d.prefixEnd..])
  }

  ghost predicate PartsInPlace(b: Bytes, d: Directory, team: Bytes, r: Bytes)
    requires Parse(b) == Some(d)
  {
    Sizes(b, d, team);
    var teamAt := d.prefixEnd + HeaderGrowth(d);
    var slotsAt := teamAt + |team| + 1;
    && |r| == |b| + Growth(d, team)
    && r[HeaderSize(NewVersion(d))..teamAt] == b[HeaderSize(d.version)..d.prefixEnd]
    && r[teamAt..slotsAt] == team + [0]
    && r[slotsAt..slotsAt + SlotGrowth(d)] == Zeros(SlotGrowth(d))
    && r[slotsAt + SlotGrowth(d)..] == b[d.prefixEnd..]
  }

  ghost predicate HeaderInPlace(b: Bytes, d: Directory, team: Bytes, r: Bytes)
    requires Parse(b) == Some(d) && |r| == |b| + Growth(d, team)
  {
    Sizes(b, d, team);
    var header := HeaderSize(d.version);
    && r[..header] == b[..header]
    && r[header..HeaderSize(NewVersion(d))] == Zeros(HeaderGrowth(d))
  }

  lemma MovedParts(b: Bytes, d: Directory, team: Bytes)
    requires Ready(b, d, team)
    ensures PartsInPlace(b, d, team, Moved(b, d, team))
    ensures HeaderInPlace(b, d, team, Moved(b, d, team))
  {
    hide Span, Parse, SlotGrowth, Framed, Read, HeaderSize;
    Sizes(b, d, team);
  }

  /** The header fields the transformation rewrites. */
  function HeaderWords(b: Bytes, d: Directory, team: Bytes, teamAlone: bool): (fields: seq<Field>)
    requires Framed(b) && d == Read(b)
  {
    var growth := HeaderGrowth(d);
    [Field(4, |b| + Growth(d, team)),
     Field(8, NewVersion(d)),
     Field(12, Flags(d.flags, teamAlone)),
     Field(16, d.hashOffset + Growth(d, team)),
     Field(24, NewSpecialSlots(d)),
     Field(20, d.identifierOffset + growth),
     Field(48, d.prefixEnd + growth)]
    + (if d.version >= 0x20500 && d.preEncryptOffset != 0 then [Field(92, d.preEncryptOffset + growth)] else [])
    + (if d.version >= 0x20600 && d.linkageOffset != 0 then [Field(100, d.linkageOffset + growth)] else [])
    + (if d.version >= 0x20400 then [Field(80, Word(b, 80)), Field(84, Word(b, 84) - Word(b, 84) % 2)] else [])
  }

  lemma HeaderWordsFit(b: Bytes, d: Directory, team: Bytes, teamAlone: bool)
    requires Ready(b, d, team)
    ensures FieldsFit(HeaderWords(b, d, team, teamAlone), HeaderSize(NewVersion(d)))
    ensures HeaderSize(NewVersion(d)) <= |b| + Growth(d, team)
  {
    hide Span, Word, CoverageOk, ScatterEnds, SparesOk, Flags, SlotGrowth;
    ParsedIsRead(b, d);
    Sizes(b, d, team);
  }

  ghost predicate IsHeaderPlace(d: Directory, at: nat) {
    || (at <= 24 && at % 4 == 0 && at > 0) || at == 48 || at == 80 || at == 84
    || (at == 92 && d.preEncryptOffset != 0) || (at == 100 && d.linkageOffset != 0)
  }

  lemma HeaderPlaces(b: Bytes, d: Directory, team: Bytes, teamAlone: bool)
    requires Framed(b) && d == Read(b)
    ensures forall k :: 0 <= k < |HeaderWords(b, d, team, teamAlone)| ==>
              IsHeaderPlace(d, HeaderWords(b, d, team, teamAlone)[k].at)
    ensures d.version >= 0x20500 && d.preEncryptOffset != 0 ==>
              Field(92, d.preEncryptOffset) in HeaderWords(b, d, team, teamAlone)
    ensures d.version >= 0x20600 && d.linkageOffset != 0 ==>
              Field(100, d.linkageOffset) in HeaderWords(b, d, team, teamAlone)
  {
    hide Word, Flags, Growth, Framed, Read;
    var fields := HeaderWords(b, d, team, teamAlone);
    if d.version >= 0x20500 && d.preEncryptOffset != 0 { assert fields[7] == Field(92, d.preEncryptOffset); }
    if d.version >= 0x20600 && d.linkageOffset != 0 {
      assert fields[if d.preEncryptOffset != 0 then 8 else 7] == Field(100, d.linkageOffset);
    }
  }

  /** Which header bytes those fields leave alone. */
  lemma HeaderWordsMiss(b: Bytes, d: Directory, team: Bytes, teamAlone: bool)
    requires Framed(b) && d == Read(b)
    ensures var fields := HeaderWords(b, d, team, teamAlone);
      && Untouched(fields, 0, 4) && Untouched(fields, 28, 44) && Untouched(fields, 44, 48)
      && Untouched(fields, 52, 64) && Untouched(fields, 64, 80)
      && Untouched(fields, 88, 92) && Untouched(fields, 96, 100) && Untouched(fields, 104, 108)
      && (d.version >= 0x20500 ==> Field(92, d.preEncryptOffset) in fields || Untouched(fields, 92, 96))
      && (d.version >= 0x20600 ==> Field(100, d.linkageOffset) in fields || Untouched(fields, 100, 104))
  {
    hide HeaderWords, Framed, Read;
    HeaderPlaces(b, d, team, teamAlone);
  }

  ghost function Patched(b: Bytes, d: Directory, team: Bytes, teamAlone: bool): (r: Bytes)
    requires Ready(b, d, team)
    ensures |r| == |b| + Growth(d, team)
  {
    ParsedIsRead(b, d);
    HeaderWordsFit(b, d, team, teamAlone);
    PutWords(Moved(b, d, team), HeaderWords(b, d, team, teamAlone))
  }

  lemma PatchedKeepsParts(b: Bytes, d: Directory, team: Bytes, teamAlone: bool)
    requires Ready(b, d, team)
    ensures PartsInPlace(b, d, team, Patched(b, d, team, teamAlone))
  {
    hide Span, Parse, HeaderWords, PutWords, Growth, SlotGrowth, Moved, HeaderSize, PartsInPlace, HeaderInPlace,
         Framed, Read;
    ParsedIsRead(b, d);
    HeaderWordsFit(b, d, team, teamAlone);
    MovedParts(b, d, team);
    Sizes(b, d, team);
    var m := Moved(b, d, team);
    WordsKeep(m, HeaderWords(b, d, team, teamAlone), HeaderSize(NewVersion(d)), |m|);
    SameParts(b, d, team, m, Patched(b, d, team, teamAlone));
  }

  lemma SameParts(b: Bytes, d: Directory, team: Bytes, m: Bytes, r: Bytes)
    requires Parse(b) == Some(d) && PartsInPlace(b, d, team, m) && |r| == |m|
    requires HeaderSize(NewVersion(d)) <= |m| && r[HeaderSize(NewVersion(d))..|m|] == m[HeaderSize(NewVersion(d))..|m|]
    ensures PartsInPlace(b, d, team, r)
  {
    hide Span, Parse, SlotGrowth, HeaderSize, Read, Framed;
    Sizes(b, d, team);
    var from := HeaderSize(NewVersion(d));
    var teamAt := d.prefixEnd + HeaderGrowth(d);
    var slotsAt := teamAt + |team| + 1;
    SameSlice(r, m, from, |m|, from, teamAt);
    SameSlice(r, m, from, |m|, teamAt, slotsAt);
    SameSlice(r, m, from, |m|, slotsAt, slotsAt + SlotGrowth(d));
    SameSlice(r, m, from, |m|, slotsAt + SlotGrowth(d), |m|);
    var tail := slotsAt + SlotGrowth(d);
    assert r[tail..|m|] == r[tail..] && m[tail..|m|] == m[tail..];
  }

  /** The words the transformation writes. */
  ghost predicate WordsWritten(b: Bytes, d: Directory, team: Bytes, teamAlone: bool, r: Bytes)
    requires Framed(b) && d == Read(b)
  {
    && |r| == |b| + Growth(d, team) && HeaderSize(NewVersion(d)) <= |r|
    && Word(r, 4) == |r| && Word(r, 8) == NewVersion(d)
    && Word(r, 12) == Flags(d.flags, teamAlone)
    && Word(r, 16) == d.hashOffset + Growth(d, team)
    && Word(r, 20) == d.identifierOffset + HeaderGrowth(d)
    && Word(r, 24) == NewSpecialSlots(d)
    && Word(r, 48) == d.prefixEnd + HeaderGrowth(d)
    && (d.version >= 0x20400 ==> Word(r, 80) == Word(b, 80) && Word(r, 84) == Word(b, 84) - Word(b, 84) % 2)
  }

  /** The header bytes it leaves as they were, zero where the header grew. */
  ghost predicate WordsKept(b: Bytes, d: Directory, r: Bytes)
    requires Framed(b) && d == Read(b)
  {
    && HeaderSize(NewVersion(d)) <= |r|
    && r[0..4] == b[0..4] && r[28..44] == b[28..44] && Word(r, 44) == 0
    && (d.version >= 0x20300 ==> r[52..64] == b[52..64])
    && (d.version >= 0x20400 ==> r[64..80] == b[64..80])
  }

  /** The offsets of the newest versions, whose header never grows. */
  ghost predicate TailKept(b: Bytes, d: Directory, r: Bytes)
    requires Framed(b) && d == Read(b)
  {
    && HeaderSize(d.version) <= |r|
    && (d.version >= 0x20500 ==> r[88..92] == b[88..92] && Word(r, 92) == d.preEncryptOffset)
    && (d.version >= 0x20600 ==>
          r[96..100] == b[96..100] && Word(r, 100) == d.linkageOffset && r[104..108] == b[104..108])
  }

  lemma PatchedWords(b: Bytes, d: Directory, team: Bytes, teamAlone: bool)
    requires Ready(b, d, team)
    ensures Framed(b) && d == Read(b)
    ensures WordsWritten(b, d, team, teamAlone, Patched(b, d, team, teamAlone))
  {
    hide Span, Parse, Word, PutWords, Growth, SlotGrowth, Moved, Framed, Read, Flags;
    ParsedIsRead(b, d);
    Sizes(b, d, team);
    HeaderWordsFit(b, d, team, teamAlone);
    var m, fields := Moved(b, d, team), HeaderWords(b, d, team, teamAlone);
    WordsRead(m, fields, 0);
    WordsRead(m, fields, 1);
    WordsRead(m, fields, 2);
    WordsRead(m, fields, 3);
    WordsRead(m, fields, 4);
    WordsRead(m, fields, 5);
    WordsRead(m, fields, 6);
    if d.version >= 0x20400 {
      WordsRead(m, fields, |fields| - 2);
      WordsRead(m, fields, |fields| - 1);
    }
  }

  lemma PatchedKeepsRest(b: Bytes, d: Directory, team: Bytes, teamAlone: bool)
    requires Ready(b, d, team)
    ensures Framed(b) && d == Read(b)
    ensures WordsKept(b, d, Patched(b, d, team, teamAlone))
  {
    hide Span, Parse, Word, PutWords, Growth, SlotGrowth, Moved, Framed, Flags, PartsInPlace, HeaderWords;
    ParsedIsRead(b, d);
    Sizes(b, d, team);
    HeaderWordsFit(b, d, team, teamAlone);
    HeaderWordsMiss(b, d, team, teamAlone);
    MovedParts(b, d, team);
    var m, fields := Moved(b, d, team), HeaderWords(b, d, team, teamAlone);
    var header := HeaderSize(d.version);
    KeepsHeader(b, header, m, fields, 0, 4);
    KeepsHeader(b, header, m, fields, 28, 44);
    if d.version >= 0x20100 {
      KeepsHeader(b, header, m, fields, 44, 48);
      SameWord(PutWords(m, fields), b, 44, 48, 44, 44);
    } else {
      WordsKeep(m, fields, 44, 48);
      NewWordIsZero(m, PutWords(m, fields));
    }
    if d.version >= 0x20300 { KeepsHeader(b, header, m, fields, 52, 64); }
    if d.version >= 0x20400 { KeepsHeader(b, header, m, fields, 64, 80); }
  }

  lemma NewWordIsZero(m: Bytes, r: Bytes)
    requires 52 <= |m| == |r| && m[44..52] == Zeros(8) && r[44..48] == m[44..48]
    ensures Word(r, 44) == 0
  {
    SameWord(r, m, 44, 48, 44, 44);
    SameWord(m, Zeros(8), 44, 52, 0, 44);
  }

  lemma PatchedKeepsTail(b: Bytes, d: Directory, team: Bytes, teamAlone: bool)
    requires Ready(b, d, team)
    ensures Framed(b) && d == Read(b)
    ensures TailKept(b, d, Patched(b, d, team, teamAlone))
  {
    hide Span, Parse, Word, PutWords, Growth, SlotGrowth, Moved, Framed, Flags, PartsInPlace, HeaderWords;
    ParsedIsRead(b, d);
    Sizes(b, d, team);
    HeaderWordsFit(b, d, team, teamAlone);
    HeaderWordsMiss(b, d, team, teamAlone);
    MovedParts(b, d, team);
    var m, fields := Moved(b, d, team), HeaderWords(b, d, team, teamAlone);
    var header := HeaderSize(d.version);
    if d.version >= 0x20500 {
      KeepsHeader(b, header, m, fields, 88, 92);
      OptionalWord(b, header, m, fields, 92, d.preEncryptOffset);
    }
    if d.version >= 0x20600 {
      KeepsHeader(b, header, m, fields, 96, 100);
      OptionalWord(b, header, m, fields, 100, d.linkageOffset);
      KeepsHeader(b, header, m, fields, 104, 108);
    }
  }

  /** A field that is either written with the value it had or not written at all. */
  lemma OptionalWord(b: Bytes, header: nat, m: Bytes, fields: seq<Field>, at: nat, value: nat)
    requires FieldsFit(fields, |m|) && at + 4 <= header <= |m| && header <= |b| && m[..header] == b[..header]
    requires Word(b, at) == value
    requires Field(at, value) in fields || Untouched(fields, at, at + 4)
    ensures Word(PutWords(m, fields), at) == value
  {
    if Field(at, value) in fields {
      WordsReadAt(m, fields, Field(at, value));
    } else {
      KeepsHeader(b, header, m, fields, at, at + 4);
      SameWord(PutWords(m, fields), b, at, at + 4, at, at);
    }
  }

  lemma KeepsHeader(b: Bytes, header: nat, m: Bytes, fields: seq<Field>, lo: nat, hi: nat)
    requires FieldsFit(fields, |m|) && lo <= hi <= header <= |m| && header <= |b| && m[..header] == b[..header]
    requires Untouched(fields, lo, hi)
    ensures PutWords(m, fields)[lo..hi] == b[lo..hi]
  {
    WordsKeep(m, fields, lo, hi);
    SameSlice(m, b, 0, header, lo, hi);
  }

  // ----- The replaced slots ------------------------------------------------------------

  function SlotsAt(d: Directory, team: Bytes): nat {
    d.prefixEnd + HeaderGrowth(d) + |team| + 1
  }

  /** Where the hash of special slot `slot` goes. */
  function Place(d: Directory, team: Bytes, slot: nat): int {
    d.hashOffset + Growth(d, team) - Span(slot, d.hashSize)
  }

  lemma PlaceIsInside(b: Bytes, d: Directory, team: Bytes, slot: nat)
    requires Parse(b) == Some(d) && 1 <= slot <= NewSpecialSlots(d)
    ensures SlotsAt(d, team) <= Place(d, team, slot)
    ensures Place(d, team, slot) + d.hashSize <= d.hashOffset + Growth(d, team) <= |b| + Growth(d, team)
  {
    hide Span, Parse, NewSpecialSlots, Growth;
    Sizes(b, d, team);
    Distribute(slot, NewSpecialSlots(d), d.hashSize);
    Distribute(1, slot, d.hashSize);
  }

  lemma PlacesAreApart(d: Directory, team: Bytes, a: nat, b: nat)
    requires a < b
    ensures Place(d, team, b) + d.hashSize <= Place(d, team, a)
  {
    hide Span, Growth;
    Distribute(a, b, d.hashSize);
    Distribute(1, b - a, d.hashSize);
  }

  ghost function Sealed(hash: Hash, b: Bytes, d: Directory, donor: Donor, team: Bytes, teamAlone: bool): (r: Bytes)
    requires Ready(b, d, team)
    ensures |r| == |b| + Growth(d, team)
  {
    Sizes(b, d, team);
    PlaceIsInside(b, d, team, SLOT_REQUIREMENTS);
    PlaceIsInside(b, d, team, SLOT_ENTITLEMENTS);
    PlaceIsInside(b, d, team, SLOT_DER_ENTITLEMENTS);
    var r0 := Put(Patched(b, d, team, teamAlone), Place(d, team, SLOT_REQUIREMENTS),
                  ComponentHash(hash, d, donor, SLOT_REQUIREMENTS));
    var r1 := Put(r0, Place(d, team, SLOT_ENTITLEMENTS), ComponentHash(hash, d, donor, SLOT_ENTITLEMENTS));
    Put(r1, Place(d, team, SLOT_DER_ENTITLEMENTS), ComponentHash(hash, d, donor, SLOT_DER_ENTITLEMENTS))
  }

  /** Only the three replaced slots differ. */
  lemma SealedKeeps(hash: Hash, b: Bytes, d: Directory, donor: Donor, team: Bytes, teamAlone: bool)
    requires Ready(b, d, team)
    ensures SlotsAt(d, team) <= d.hashOffset + Growth(d, team) <= |b| + Growth(d, team)
    ensures var p, r := Patched(b, d, team, teamAlone), Sealed(hash, b, d, donor, team, teamAlone);
      && r[..SlotsAt(d, team)] == p[..SlotsAt(d, team)]
      && r[d.hashOffset + Growth(d, team)..] == p[d.hashOffset + Growth(d, team)..]
  {
    hide Span, Parse, Growth, Patched, ComponentHash, Place, SlotsAt;
    Sizes(b, d, team);
    PlaceIsInside(b, d, team, SLOT_REQUIREMENTS);
    PlaceIsInside(b, d, team, SLOT_ENTITLEMENTS);
    PlaceIsInside(b, d, team, SLOT_DER_ENTITLEMENTS);
  }

  lemma SealedSlot(hash: Hash, b: Bytes, d: Directory, donor: Donor, team: Bytes, teamAlone: bool, slot: nat)
    requires Ready(b, d, team) && 1 <= slot <= NewSpecialSlots(d)
    ensures 0 <= Place(d, team, slot) && Place(d, team, slot) + d.hashSize <= |b| + Growth(d, team)
    ensures var at, p := Place(d, team, slot), Patched(b, d, team, teamAlone);
      var r := Sealed(hash, b, d, donor, team, teamAlone);
      r[at..at + d.hashSize] == if Replaced(slot) then ComponentHash(hash, d, donor, slot) else p[at..at + d.hashSize]
  {
    hide Span, Parse, Growth, Patched, ComponentHash, Place, Put;
    Sizes(b, d, team);
    PlaceIsInside(b, d, team, slot);
    PlaceIsInside(b, d, team, SLOT_REQUIREMENTS);
    PlaceIsInside(b, d, team, SLOT_ENTITLEMENTS);
    PlaceIsInside(b, d, team, SLOT_DER_ENTITLEMENTS);
    SlotApart(d, team, slot, SLOT_REQUIREMENTS);
    SlotApart(d, team, slot, SLOT_ENTITLEMENTS);
    SlotApart(d, team, slot, SLOT_DER_ENTITLEMENTS);
    ThreePuts(Patched(b, d, team, teamAlone), Place(d, team, 2), ComponentHash(hash, d, donor, 2),
              Place(d, team, 5), ComponentHash(hash, d, donor, 5),
      Place(d, team, 7), ComponentHash(hash, d, donor, 7), Place(d, team, slot), d.hashSize);
  }

  lemma ThreePuts(p: Bytes, x: nat, hx: Bytes, y: nat, hy: Bytes, z: nat, hz: Bytes, at: nat, n: nat)
    requires |hx| == |hy| == |hz| == n && x + n <= |p| && y + n <= |p| && z + n <= |p| && at + n <= |p|
    requires at == x || at + n <= x || x + n <= at
    requires at == y || at + n <= y || y + n <= at
    requires at == z || at + n <= z || z + n <= at
    ensures Put(Put(Put(p, x, hx), y, hy), z, hz)[at..at + n] ==
            if at == z then hz else if at == y then hy else if at == x then hx else p[at..at + n]
  {
    hide Put;
    PutSlice(p, x, hx, at);
    PutSlice(Put(p, x, hx), y, hy, at);
    PutSlice(Put(Put(p, x, hx), y, hy), z, hz, at);
  }

  lemma SlotApart(d: Directory, team: Bytes, a: nat, b: nat)
    requires 1 <= a && 1 <= b
    ensures a == b || d.hashSize == 0 || Place(d, team, a) != Place(d, team, b)
    ensures || a == b || Place(d, team, b) + d.hashSize <= Place(d, team, a)
            || Place(d, team, a) + d.hashSize <= Place(d, team, b)
  {
    if a < b { PlacesAreApart(d, team, a, b); }
    if b < a { PlacesAreApart(d, team, b, a); }
  }

  /** Before the replacement, the old slots hold what they held and new ones are zero. */
  lemma MovedSlot(b: Bytes, d: Directory, team: Bytes, r: Bytes, slot: nat)
    requires Parse(b) == Some(d) && PartsInPlace(b, d, team, r) && 1 <= slot <= NewSpecialSlots(d)
    ensures HashesOk(d, |b|) && 0 <= Place(d, team, slot) && Place(d, team, slot) + d.hashSize <= |r|
    ensures var at := Place(d, team, slot);
      r[at..at + d.hashSize] == if slot <= d.specialSlots then Slot(b, d, slot) else Zeros(d.hashSize)
  {
    hide Span, CoverageOk, SparesOk, OffsetsOk, Framed, Read, NewSpecialSlots;
    Sizes(b, d, team);
    PlaceIsInside(b, d, team, slot);
    var at := Place(d, team, slot);
    var from := SlotsAt(d, team) + SlotGrowth(d);
    if slot <= d.specialSlots {
      SlotFits(d, slot);
      Distribute(slot, d.specialSlots, d.hashSize);
      PieceMoves(r, b, from, d.prefixEnd, at, SlotStart(d, slot), d.hashSize);
    } else {
      Distribute(d.specialSlots, slot, d.hashSize);
      Distribute(1, slot - d.specialSlots, d.hashSize);
      PieceIsZero(r, SlotsAt(d, team), from, at, d.hashSize);
    }
  }

  // ----- Parsing the result ---------------------------------------------------------------

  /** Everything known of the finished bytes `r` outside the special slots. */
  ghost predicate Laid(b: Bytes, d: Directory, team: Bytes, teamAlone: bool, r: Bytes)
    requires Framed(b) && d == Read(b)
  {
    var header := HeaderSize(NewVersion(d));
    var teamAt := d.prefixEnd + HeaderGrowth(d);
    && WordsWritten(b, d, team, teamAlone, r) && WordsKept(b, d, r) && TailKept(b, d, r)
    && header <= teamAt && SlotsAt(d, team) <= |r| && HeaderSize(d.version) <= d.prefixEnd <= |b|
    && r[header..teamAt] == b[HeaderSize(d.version)..d.prefixEnd]
    && r[teamAt..SlotsAt(d, team)] == team + [0]
    && d.hashOffset <= |b| && d.hashOffset + Growth(d, team) <= |r|
    && r[d.hashOffset + Growth(d, team)..] == b[d.hashOffset..]
  }

  lemma HeaderCarries(b: Bytes, d: Directory, team: Bytes, teamAlone: bool, p: Bytes, r: Bytes)
    requires Framed(b) && d == Read(b) && HeaderSize(NewVersion(d)) >= HeaderSize(d.version)
    requires WordsWritten(b, d, team, teamAlone, p) && WordsKept(b, d, p) && TailKept(b, d, p)
    requires |r| == |p| && r[..HeaderSize(NewVersion(d))] == p[..HeaderSize(NewVersion(d))]
    ensures WordsWritten(b, d, team, teamAlone, r) && WordsKept(b, d, r) && TailKept(b, d, r)
  {
    hide Word, Growth, Flags, Framed, Read;
    var n := HeaderSize(NewVersion(d));
    SameWords(r, p, n);
    SameSlice(r, p, 0, n, 0, 4);
    SameSlice(r, p, 0, n, 28, 44);
    if d.version >= 0x20300 { SameSlice(r, p, 0, n, 52, 64); }
    if d.version >= 0x20400 { SameSlice(r, p, 0, n, 64, 80); }
    if d.version >= 0x20500 { SameSlice(r, p, 0, n, 88, 92); }
    if d.version >= 0x20600 {
      SameSlice(r, p, 0, n, 96, 100);
      SameSlice(r, p, 0, n, 104, 108);
    }
  }

  lemma SealedIsLaid(hash: Hash, b: Bytes, d: Directory, donor: Donor, team: Bytes, teamAlone: bool)
    requires Ready(b, d, team)
    ensures Framed(b) && d == Read(b)
    ensures Laid(b, d, team, teamAlone, Sealed(hash, b, d, donor, team, teamAlone))
  {
    hide Parse, Span, Growth, SlotGrowth, Patched, Sealed, WordsWritten, WordsKept, TailKept, Framed, Read, HeaderSize;
    ParsedIsRead(b, d);
    Sizes(b, d, team);
    PatchedWords(b, d, team, teamAlone);
    PatchedKeepsRest(b, d, team, teamAlone);
    PatchedKeepsTail(b, d, team, teamAlone);
    PatchedKeepsParts(b, d, team, teamAlone);
    SealedKeeps(hash, b, d, donor, team, teamAlone);
    var p, r := Patched(b, d, team, teamAlone), Sealed(hash, b, d, donor, team, teamAlone);
    var header := HeaderSize(NewVersion(d));
    var teamAt := d.prefixEnd + HeaderGrowth(d);
    SameSlice(r, p, 0, SlotsAt(d, team), 0, header);
    SameSlice(r, p, 0, SlotsAt(d, team), header, teamAt);
    SameSlice(r, p, 0, SlotsAt(d, team), teamAt, SlotsAt(d, team));
    HeaderCarries(b, d, team, teamAlone, p, r);
    CodeHashesMoved(b, d, team, p);
  }

  lemma CodeHashesMoved(b: Bytes, d: Directory, team: Bytes, p: Bytes)
    requires Parse(b) == Some(d) && PartsInPlace(b, d, team, p)
    ensures d.hashOffset <= |b| && d.hashOffset + Growth(d, team) <= |p|
    ensures p[d.hashOffset + Growth(d, team)..] == b[d.hashOffset..]
  {
    hide Parse, Span, SlotGrowth, HeaderSize, Framed, Read;
    Sizes(b, d, team);
    var from := SlotsAt(d, team) + SlotGrowth(d);
    var off := d.hashOffset - d.prefixEnd;
    assert p[from..][off..] == p[d.hashOffset + Growth(d, team)..];
    assert b[d.prefixEnd..][off..] == b[d.hashOffset..];
  }

  /** The fixed fields that no version moves. */
  lemma LaidFixed(b: Bytes, d: Directory, r: Bytes)
    requires Framed(b) && d == Read(b) && WordsKept(b, d, r) && HeaderSize(d.version) <= HeaderSize(NewVersion(d))
    ensures Word(r, 0) == MAGIC && r[36] == b[36] && r[37] == b[37] && r[39] == b[39]
    ensures Word(r, 28) == Word(b, 28) && Word(r, 32) == Word(b, 32) && Word(r, 40) == Word(b, 40)
    ensures d.version >= 0x20300 ==>
              Word(r, 52) == Word(b, 52) && Word(r, 56) == Word(b, 56) && Word(r, 60) == Word(b, 60)
  {
    hide Word, Span;
    SameWord(r, b, 0, 4, 0, 0);
    assert r[28..44][8] == b[28..44][8] && r[28..44][9] == b[28..44][9] && r[28..44][11] == b[28..44][11];
    SameWord(r, b, 28, 44, 28, 28);
    SameWord(r, b, 28, 44, 28, 32);
    SameWord(r, b, 28, 44, 28, 40);
    if d.version >= 0x20300 {
      SameWord(r, b, 52, 64, 52, 52);
      SameWord(r, b, 52, 64, 52, 56);
      SameWord(r, b, 52, 64, 52, 60);
    }
  }

  lemma LaidReads(b: Bytes, d: Directory, team: Bytes, teamAlone: bool, r: Bytes)
    requires Parse(b) == Some(d) && Framed(b) && d == Read(b) && d.scatterOffset == 0 && Laid(b, d, team, teamAlone, r)
    ensures Framed(r) && Read(r) == Result(d, team, teamAlone) && SparesOk(r)
  {
    hide Word, Span, Growth, SlotGrowth, CoverageOk, OffsetsOk, HashesOk;
    Sizes(b, d, team);
    LaidFixed(b, d, r);
    if d.version >= 0x20600 { SameWord(r, b, 104, 108, 104, 104); }
    assert Framed(r) && SparesOk(r);
    assert d.version >= 0x20300 ==> Limit64(r) == Limit64(b);
  }

  /** The stretch between header and Team ID moves as a whole. */
  lemma StringMoves(b: Bytes, r: Bytes, from: nat, to: nat, growth: nat, at: nat)
    requires from <= at < to <= |b| && to + growth <= |r| && r[from + growth..to + growth] == b[from..to]
    requires StringOk(b, at, to)
    ensures StringOk(r, at + growth, to + growth) && StringAt(r, at + growth) == StringAt(b, at)
  {
    forall i | from <= i < to ensures r[i + growth] == b[i] {
      assert r[from + growth..to + growth][i - from] == b[from..to][i - from];
    }
    var nul :| at <= nul < to && b[nul] == 0;
    assert r[nul + growth] == 0;
    StringsEqual(b, r, at, nul, growth);
  }

  lemma {:induction false} StringsEqual(b: Bytes, r: Bytes, at: nat, nul: nat, growth: nat)
    requires at <= nul < |b| && nul + growth < |r| && b[nul] == 0 && r[nul + growth] == 0
    requires forall i :: at <= i <= nul ==> r[i + growth] == b[i]
    ensures StringAt(r, at + growth) == StringAt(b, at)
    decreases nul - at
  {
    if b[at] != 0 { StringsEqual(b, r, at + 1, nul, growth); }
  }

  lemma {:induction false} TextIsString(r: Bytes, at: nat, text: Bytes)
    requires at + |text| < |r| && r[at..at + |text| + 1] == text + [0] && NoNul(text)
    ensures StringAt(r, at) == text
    decreases |text|
  {
    assert forall i :: 0 <= i < |text| ==> r[at..at + |text| + 1][i] == text[i];
    assert r[at..at + |text| + 1][|text|] == 0;
    if text != [] {
      assert r[at + 1..at + 1 + |text[1..]| + 1] == text[1..] + [0];
      TextIsString(r, at + 1, text[1..]);
    }
  }

  lemma ParsedOffsets(b: Bytes, d: Directory)
    requires Parse(b) == Some(d)
    ensures d.prefixEnd <= |b| && OffsetsOk(b, d)
  {
    hide Framed, Read, CoverageOk, HashesOk, SparesOk, OffsetsOk;
  }

  /** The identifier and the Team ID as the result holds them. */
  lemma LaidStrings(b: Bytes, d: Directory, team: Bytes, teamAlone: bool, r: Bytes)
    requires Ready(b, d, team) && Framed(b) && d == Read(b) && Laid(b, d, team, teamAlone, r)
    ensures SlotsAt(d, team) <= |r|
    ensures StringOk(r, d.identifierOffset + HeaderGrowth(d), SlotsAt(d, team))
    ensures StringAt(r, d.identifierOffset + HeaderGrowth(d)) == StringAt(b, d.identifierOffset)
    ensures StringOk(r, d.prefixEnd + HeaderGrowth(d), SlotsAt(d, team))
    ensures StringAt(r, d.prefixEnd + HeaderGrowth(d)) == team
  {
    hide Parse, Growth, WordsKept, WordsWritten, TailKept, Read, Framed, StringOk, StringAt, ScatterEnds, HeaderSize,
         NewVersion, HeaderGrowth;
    Sizes(b, d, team);
    ParsedOffsets(b, d);
    StringsMove(b, r, HeaderSize(d.version), d.prefixEnd, HeaderGrowth(d), d.identifierOffset, team);
  }

  lemma StringsMove(b: Bytes, r: Bytes, header: nat, end: nat, growth: nat, identifier: nat, team: Bytes)
    requires header <= identifier < end <= |b| && StringOk(b, identifier, end)
    requires 1 <= |team| && NoNul(team) && end + growth + |team| + 1 <= |r|
    requires r[header + growth..end + growth] == b[header..end]
    requires r[end + growth..end + growth + |team| + 1] == team + [0]
    ensures StringOk(r, identifier + growth, end + growth + |team| + 1)
    ensures StringAt(r, identifier + growth) == StringAt(b, identifier)
    ensures StringOk(r, end + growth, end + growth + |team| + 1) && StringAt(r, end + growth) == team
  {
    hide StringOk, StringAt;
    StringMoves(b, r, header, end, growth, identifier);
    WidenString(r, identifier + growth, end + growth, end + growth + |team| + 1);
    TeamIsString(r, end + growth, team);
  }

  lemma LaidOffsets(b: Bytes, d: Directory, team: Bytes, teamAlone: bool, r: Bytes)
    requires Ready(b, d, team) && Framed(b) && d == Read(b) && Laid(b, d, team, teamAlone, r)
    ensures SlotsAt(d, team) <= |r| && OffsetsOk(r, Result(d, team, teamAlone))
  {
    hide Parse, Growth, Laid, Read, Framed, StringOk, StringAt, ScatterEnds, HeaderSize, NewVersion, Span, Flags;
    Sizes(b, d, team);
    ParsedOffsets(b, d);
    LaidStrings(b, d, team, teamAlone, r);
  }

  lemma TeamIsString(r: Bytes, at: nat, team: Bytes)
    requires at + |team| < |r| && 1 <= |team| && NoNul(team) && r[at..at + |team| + 1] == team + [0]
    ensures StringOk(r, at, at + |team| + 1) && StringAt(r, at) == team
  {
    TextIsString(r, at, team);
    assert r[at..at + |team| + 1][0] == team[0];
    assert r[at..at + |team| + 1][|team|] == 0;
    assert r[at + |team|] == 0;
  }

  lemma WidenString(r: Bytes, from: nat, to: nat, end: nat)
    requires StringOk(r, from, to) && to <= end <= |r|
    ensures StringOk(r, from, end)
  {
  }

  lemma LaidParses(b: Bytes, d: Directory, team: Bytes, teamAlone: bool, r: Bytes)
    requires Ready(b, d, team) && Framed(b) && d == Read(b) && Laid(b, d, team, teamAlone, r)
    ensures Parse(r) == Some(Result(d, team, teamAlone))
    ensures HashesOk(d, |b|) && HashesOk(Result(d, team, teamAlone), |r|)
    ensures CodeHashes(r, Result(d, team, teamAlone)) == CodeHashes(b, d)
  {
    hide Word, Span, SlotGrowth, OffsetsOk, SparesOk, WordsKept, TailKept, Read, Framed, HeaderSize;
    Sizes(b, d, team);
    LaidReads(b, d, team, teamAlone, r);
    LaidOffsets(b, d, team, teamAlone, r);
  }

  // ----- The theorem ------------------------------------------------------------------------

  /** What special slot `slot` of the result must hold. */
  function NewSlot(hash: Hash, b: Bytes, d: Directory, donor: Donor, slot: nat): Bytes
    requires HashesOk(d, |b|)
  {
    if Replaced(slot) then ComponentHash(hash, d, donor, slot)
    else if slot <= d.specialSlots then Slot(b, d, slot)
    else Zeros(d.hashSize)
  }

  /** `r` is `b` with a Team ID, modern slots and the donor's components: it parses,
      and everything else it says is what `b` said. */
  ghost predicate Transformed(hash: Hash, b: Bytes, d: Directory, donor: Donor, team: Bytes, teamAlone: bool, r: Bytes)
    requires HashesOk(d, |b|) && d.flags < WORD
  {
    var t := Result(d, team, teamAlone);
    && Parse(r) == Some(t) && HashesOk(t, |r|)
    && StringAt(r, t.identifierOffset) == StringAt(b, d.identifierOffset)
    && StringAt(r, t.teamOffset) == team
    && CodeHashes(r, t) == CodeHashes(b, d)
    && (forall slot :: 1 <= slot <= t.specialSlots ==> Slot(r, t, slot) == NewSlot(hash, b, d, donor, slot))
    && SameExtras(b, d, r, t)
    && (t.version >= 0x20400 ==> 88 <= |r| && Word(r, 84) % 2 == 0)
    && SameFields(b, d.version, r)
    && Updated(d, t, teamAlone)
  }

  /** What the new directory says: at least version 0x20200 and seven special slots, the ad-hoc flag
      as the platform wants it, and everything about the code as it was. */
  ghost predicate Updated(d: Directory, t: Directory, teamAlone: bool) {
    && t.version == (if d.version < 0x20200 then 0x20200 else d.version)
    && t.specialSlots == (if d.specialSlots < 7 then 7 else d.specialSlots)
    && t.flags / 4 == d.flags / 4 && t.flags % 2 == d.flags % 2 && t.flags / 2 % 2 == (if teamAlone then 0 else 1)
    && t.signingLimit == d.signingLimit && t.codeSlots == d.codeSlots && t.pageSize == d.pageSize
    && t.hashType == d.hashType && t.hashSize == d.hashSize && t.teamOffset != 0 && t.scatterOffset == d.scatterOffset
  }

  lemma ResultIsUpdated(b: Bytes, d: Directory, team: Bytes, teamAlone: bool)
    requires Parse(b) == Some(d)
    ensures d.flags < WORD && Updated(d, Result(d, team, teamAlone), teamAlone)
  {
    hide Parse, HeaderSize, Growth, HeaderGrowth;
    Sizes(b, d, team);
  }

  /** Exactly when a directory can be transformed: its hashes cover the file from the start and end
      before the signature, the Team ID is short and not empty, and the result is not too long. */
  lemma CanTransformIff(length: nat, d: Directory, team: Bytes, sliceSize: nat, signatureOffset: nat)
    ensures CanTransform(length, d, team, sliceSize, signatureOffset) <==>
            && d.scatterOffset == 0 && d.signingLimit <= signatureOffset && d.signingLimit <= sliceSize
            && 1 <= |team| <= 4095
            && length + (if d.version < 0x20100 then 8 else if d.version < 0x20200 then 4 else 0) + |team| + 1
               + (if d.specialSlots < 7 then (7 - d.specialSlots) * d.hashSize else 0) < 0x1_0000_0000
  {
  }

  /** The fields that stay as they were: counts, limits and formats, the spare words, the
      executable segment but for its lowest flag, the runtime version, the linkage types. */
  ghost predicate SameFields(b: Bytes, version: nat, r: Bytes) {
    && SamePiece(b, 28, r, 28, 16)
    && (version >= 0x20300 ==> SamePiece(b, 52, r, 52, 12))
    && (version >= 0x20400 ==>
         SamePiece(b, 64, r, 64, 16) && 88 <= |b| && 88 <= |r| && Word(r, 80) == Word(b, 80)
         && Word(r, 84) / 2 == Word(b, 84) / 2)
    && (version >= 0x20500 ==> SamePiece(b, 88, r, 88, 4))
    && (version >= 0x20600 ==> SamePiece(b, 96, r, 96, 4) && SamePiece(b, 104, r, 104, 4))
  }

  ghost predicate SamePiece(b: Bytes, i: nat, r: Bytes, j: nat, n: nat) {
    i + n <= |b| && j + n <= |r| && r[j..j + n] == b[i..i + n]
  }

  /** The vectors only the newest versions have. */
  ghost predicate SameExtras(b: Bytes, d: Directory, r: Bytes, t: Directory) {
    && (d.preEncryptOffset != 0 ==>
          SamePiece(b, d.preEncryptOffset, r, t.preEncryptOffset, Span(d.codeSlots, d.hashSize)))
    && (d.linkageOffset != 0 ==> SamePiece(b, d.linkageOffset, r, t.linkageOffset, d.linkageSize))
  }

  lemma LaidExtras(b: Bytes, d: Directory, team: Bytes, teamAlone: bool, r: Bytes)
    requires Parse(b) == Some(d) && Framed(b) && d == Read(b) && Laid(b, d, team, teamAlone, r)
    ensures SameExtras(b, d, r, Result(d, team, teamAlone))
  {
    hide Parse, Growth, WordsKept, WordsWritten, TailKept, Read, Framed, StringOk, ScatterEnds, HeaderSize, NewVersion,
         HeaderGrowth, Span, SamePiece;
    Sizes(b, d, team);
    ParsedOffsets(b, d);
    var header, growth := HeaderSize(d.version), HeaderGrowth(d);
    if d.preEncryptOffset != 0 {
      StretchMoves(b, r, header, d.prefixEnd, growth, d.preEncryptOffset, Span(d.codeSlots, d.hashSize));
    }
    if d.linkageOffset != 0 {
      StretchMoves(b, r, header, d.prefixEnd, growth, d.linkageOffset, d.linkageSize);
    }
  }

  lemma StretchMoves(b: Bytes, r: Bytes, header: nat, end: nat, growth: nat, at: nat, n: nat)
    requires header <= at && at + n <= end <= |b| && end + growth <= |r|
    requires r[header + growth..end + growth] == b[header..end]
    ensures SamePiece(b, at, r, at + growth, n)
  {
    var x, y := r[at + growth..at + growth + n], b[at..at + n];
    forall i | 0 <= i < n ensures x[i] == y[i] {
      assert r[header + growth..end + growth][at - header + i] == b[header..end][at - header + i];
    }
  }

  lemma LaidIsNotMainBinary(b: Bytes, d: Directory, team: Bytes, teamAlone: bool, r: Bytes)
    requires Framed(b) && d == Read(b) && Laid(b, d, team, teamAlone, r)
    ensures NewVersion(d) >= 0x20400 ==> 88 <= |r| && Word(r, 84) % 2 == 0
  {
    hide Word, Growth, WordsKept, TailKept, Read, Framed;
  }

  lemma LaidKeepsFields(b: Bytes, d: Directory, team: Bytes, teamAlone: bool, r: Bytes)
    requires Framed(b) && d == Read(b) && Laid(b, d, team, teamAlone, r)
    ensures SameFields(b, d.version, r)
  {
    hide Word, Growth, Span, Flags;
    assert WordsKept(b, d, r) && TailKept(b, d, r) && WordsWritten(b, d, team, teamAlone, r);
    assert HeaderSize(d.version) <= |b|;
  }

  lemma SealedIsTransformed(hash: Hash, b: Bytes, d: Directory, donor: Donor, team: Bytes, teamAlone: bool)
    requires Ready(b, d, team)
    ensures HashesOk(d, |b|) && d.flags < WORD
    ensures Transformed(hash, b, d, donor, team, teamAlone, Sealed(hash, b, d, donor, team, teamAlone))
  {
    hide Parse, Laid, Sealed, Word, StringAt, HashesOk, Growth, SameExtras, SameFields, Updated, Span, Slot, NewSlot,
         CodeHashes, Framed, Read;
    Sizes(b, d, team);
    SealedIsLaid(hash, b, d, donor, team, teamAlone);
    var r, t := Sealed(hash, b, d, donor, team, teamAlone), Result(d, team, teamAlone);
    LaidParses(b, d, team, teamAlone, r);
    LaidStrings(b, d, team, teamAlone, r);
    LaidExtras(b, d, team, teamAlone, r);
    LaidIsNotMainBinary(b, d, team, teamAlone, r);
    LaidKeepsFields(b, d, team, teamAlone, r);
    ResultIsUpdated(b, d, team, teamAlone);
    forall slot | 1 <= slot <= t.specialSlots
      ensures Slot(r, t, slot) == NewSlot(hash, b, d, donor, slot)
    {
      SealedSlotReads(hash, b, d, donor, team, teamAlone, slot);
    }
  }

  lemma SealedSlotReads(hash: Hash, b: Bytes, d: Directory, donor: Donor, team: Bytes, teamAlone: bool, slot: nat)
    requires Ready(b, d, team) && 1 <= slot <= NewSpecialSlots(d)
    requires HashesOk(d, |b|) && d.flags < WORD
    requires HashesOk(Result(d, team, teamAlone), |Sealed(hash, b, d, donor, team, teamAlone)|)
    ensures Slot(Sealed(hash, b, d, donor, team, teamAlone), Result(d, team, teamAlone), slot)
            == NewSlot(hash, b, d, donor, slot)
  {
    hide Parse, Patched, Sealed, Growth, Span, ComponentHash, PartsInPlace;
    SealedSlot(hash, b, d, donor, team, teamAlone, slot);
    PatchedKeepsParts(b, d, team, teamAlone);
    MovedSlot(b, d, team, Patched(b, d, team, teamAlone), slot);
    var r, t := Sealed(hash, b, d, donor, team, teamAlone), Result(d, team, teamAlone);
    SlotFits(t, slot);
    var at := Place(d, team, slot);
    assert SlotStart(t, slot) == at;
    assert r[at..][..d.hashSize] == r[at..at + d.hashSize];
  }

  /** Whether the directory's hash for `slot` is the one its component calls for. */
  predicate SlotMatches(hash: Hash, r: Bytes, donor: Donor, slot: nat) {
    match Parse(r)
    case None => false
    case Some(t) =>
      match Component(donor, slot)
      case Some(blob) => slot <= t.specialSlots && Slot(r, t, slot) == Digest(hash, t, blob)
      case None => slot <= t.specialSlots ==> Slot(r, t, slot) == Zeros(t.hashSize)
  }

  /** The check the transformation makes of its own output. */
  predicate SelfCheck(hash: Hash, b: Bytes, d: Directory, donor: Donor, team: Bytes, teamAlone: bool, r: Bytes)
    requires HashesOk(d, |b|) && d.flags < WORD
  {
    && Parse(r).Some?
    && var t := Parse(r).value;
       && t.version >= 0x20200 && t.flags == Flags(d.flags, teamAlone)
       && t.teamOffset == d.prefixEnd + HeaderGrowth(d) && StringAt(r, t.teamOffset) == team
       && (t.version >= 0x20400 ==> Word(r, 84) % 2 == 0)
       && t.hashOffset <= |r| && r[t.hashOffset..] == b[d.hashOffset..]
       && SlotMatches(hash, r, donor, SLOT_REQUIREMENTS)
       && SlotMatches(hash, r, donor, SLOT_ENTITLEMENTS)
       && SlotMatches(hash, r, donor, SLOT_DER_ENTITLEMENTS)
  }

  lemma SelfCheckHolds(hash: Hash, b: Bytes, d: Directory, donor: Donor, team: Bytes, teamAlone: bool, r: Bytes)
    requires HashesOk(d, |b|) && d.flags < WORD && Transformed(hash, b, d, donor, team, teamAlone, r)
    ensures SelfCheck(hash, b, d, donor, team, teamAlone, r)
  {
    hide Parse, Slot, Span, Word, StringAt, Flags, SameExtras;
    var t := Result(d, team, teamAlone);
    assert Slot(r, t, 2) == NewSlot(hash, b, d, donor, 2);
    assert Slot(r, t, 5) == NewSlot(hash, b, d, donor, 5);
    assert Slot(r, t, 7) == NewSlot(hash, b, d, donor, 7);
  }

  /** The transformation as it is carried out.  It refuses exactly the directories
      that do not parse or fail one of its guards; its own check of the result
      never refuses one. */
  method Transform(hash: Hash, b: Bytes, donor: Donor, team: Bytes, sliceSize: nat, signatureOffset: nat,
      teamAlone: bool)
    returns (out: Option<Bytes>)
    requires NoNul(team)
    ensures out.Some? <==> Parse(b).Some? && CanTransform(|b|, Parse(b).value, team, sliceSize, signatureOffset)
    ensures out.Some? ==> HashesOk(Parse(b).value, |b|) && Parse(b).value.flags < WORD
    ensures out.Some? ==> Transformed(hash, b, Parse(b).value, donor, team, teamAlone, out.value)
    ensures out.Some? ==>
              Ready(b, Parse(b).value, team) && out.value == Sealed(hash, b, Parse(b).value, donor, team, teamAlone)
  {
    hide Growth, HeaderWords, Sealed, Patched, Transformed, SelfCheck, Place, ComponentHash, SlotGrowth, HeaderSize,
         PutWords;
    var parsed := Parse(b);
    if parsed.None? { return None; }
    var d := parsed.value;
    if !CanTransform(|b|, d, team, sliceSize, signatureOffset) { return None; }
    ParsedIsRead(b, d);
    Sizes(b, d, team);
    var result := Relay(b, d, team, teamAlone);
    PlaceIsInside(b, d, team, SLOT_REQUIREMENTS);
    PlaceIsInside(b, d, team, SLOT_ENTITLEMENTS);
    PlaceIsInside(b, d, team, SLOT_DER_ENTITLEMENTS);
    CopyInto(result, Place(d, team, SLOT_REQUIREMENTS), ComponentHash(hash, d, donor, SLOT_REQUIREMENTS));
    CopyInto(result, Place(d, team, SLOT_ENTITLEMENTS), ComponentHash(hash, d, donor, SLOT_ENTITLEMENTS));
    CopyInto(result, Place(d, team, SLOT_DER_ENTITLEMENTS), ComponentHash(hash, d, donor, SLOT_DER_ENTITLEMENTS));
    SealedIsTransformed(hash, b, d, donor, team, teamAlone);
    assert result[..]
           == Sealed(hash, b, d, donor, team, teamAlone) by { SealedUnfolds(hash, b, d, donor, team, teamAlone); }
    SelfCheckHolds(hash, b, d, donor, team, teamAlone, result[..]);
    if !SelfCheck(hash, b, d, donor, team, teamAlone, result[..]) { return None; }
    return Some(result[..]);
  }

  lemma SealedUnfolds(hash: Hash, b: Bytes, d: Directory, donor: Donor, team: Bytes, teamAlone: bool)
    requires Ready(b, d, team)
    requires 0 <= Place(d, team, 2) <= |b| + Growth(d, team) - d.hashSize
    requires 0 <= Place(d, team, 5) <= |b| + Growth(d, team) - d.hashSize
    requires 0 <= Place(d, team, 7) <= |b| + Growth(d, team) - d.hashSize
    requires d.hashSize <= LARGEST_DIGEST
    ensures Sealed(hash, b, d, donor, team, teamAlone) ==
            Put(Put(Put(Patched(b, d, team, teamAlone), Place(d, team, 2), ComponentHash(hash, d, donor, 2)),
                    Place(d, team, 5), ComponentHash(hash, d, donor, 5)),
                Place(d, team, 7), ComponentHash(hash, d, donor, 7))
  {
    hide Growth, Patched, Place, ComponentHash, Put;
  }

  /** Copies the parts of the directory to their places in a larger, zeroed buffer. */
  method MoveParts(b: Bytes, d: Directory, team: Bytes) returns (result: array<byte>)
    requires Ready(b, d, team)
    ensures fresh(result) && result[..] == Moved(b, d, team)
  {
    hide Parse, SlotGrowth, HeaderSize, NewVersion, Assemble;
    Sizes(b, d, team);
    var header := HeaderSize(d.version);
    var teamAt := d.prefixEnd + HeaderGrowth(d);
    result := AssembleBuffer(|b| + Growth(d, team), b[..header], HeaderSize(NewVersion(d)), b[header..d.prefixEnd],
      teamAt, team + [0], teamAt + |team| + 1 + SlotGrowth(d), b[d.prefixEnd..]);
  }

  /** Moves the parts and rewrites the header. */
  method Relay(b: Bytes, d: Directory, team: Bytes, teamAlone: bool) returns (result: array<byte>)
    requires Ready(b, d, team) && Framed(b) && d == Read(b)
    ensures fresh(result) && result[..] == Patched(b, d, team, teamAlone)
  {
    hide Parse, Growth, HeaderSize, PutWords, HeaderWords, Framed, Read, Moved;
    HeaderWordsFit(b, d, team, teamAlone);
    result := MoveParts(b, d, team);
    WriteWords(result, HeaderWords(b, d, team, teamAlone));
  }

  // ----- An example -----------------------------------------------------------------------------

  const EXAMPLE_FIELDS :=
    [Field(0, MAGIC), Field(4, 66), Field(8, EARLIEST), Field(16, 46), Field(20, 44), Field(28, 1), Field(32, 1)]

  /** A smallest directory: the earliest version, identifier "a", one SHA-1 hash over
      one byte of code, no special slots. */
  ghost function Smallest(): (b: Bytes)
    ensures |b| == 66
  {
    PutWords(Put(Put(Zeros(66), 36, [20, 1]), 44, [97]), EXAMPLE_FIELDS)
  }

  lemma SmallestWords()
    ensures var b := Smallest();
      && Word(b, 0) == MAGIC && Word(b, 4) == 66 && Word(b, 8) == EARLIEST && Word(b, 16) == 46 && Word(b, 20) == 44
      && Word(b, 28) == 1 && Word(b, 32) == 1
  {
    hide Word, PutWords, Put;
    var base := Put(Put(Zeros(66), 36, [20, 1]), 44, [97]);
    WordsRead(base, EXAMPLE_FIELDS, 0);
    WordsRead(base, EXAMPLE_FIELDS, 1);
    WordsRead(base, EXAMPLE_FIELDS, 2);
    WordsRead(base, EXAMPLE_FIELDS, 3);
    WordsRead(base, EXAMPLE_FIELDS, 4);
    WordsRead(base, EXAMPLE_FIELDS, 5);
    WordsRead(base, EXAMPLE_FIELDS, 6);
  }

  lemma SmallestRest()
    ensures var b := Smallest();
      && Word(b, 12) == 0 && Word(b, 24) == 0 && Word(b, 40) == 0
      && b[36] == 20 && b[37] == 1 && b[39] == 0 && b[44] == 97 && b[45] == 0
  {
    hide Word, PutWords;
    var base, b := Put(Put(Zeros(66), 36, [20, 1]), 44, [97]), Smallest();
    WordsKeep(base, EXAMPLE_FIELDS, 12, 16);
    WordsKeep(base, EXAMPLE_FIELDS, 24, 28);
    WordsKeep(base, EXAMPLE_FIELDS, 36, 66);
    var x, y := b[36..66], base[36..66];
    assert x[0] == y[0] && x[1] == y[1] && x[3] == y[3] && x[8] == y[8] && x[9] == y[9];
    assert b[36] == x[0] && b[37] == x[1] && b[39] == x[3] && b[44] == x[8] && b[45] == x[9];
    ZeroWord(base, b, 12);
    ZeroWord(base, b, 24);
    SameSlice(b, base, 36, 66, 40, 44);
    ZeroWord(base, b, 40);
  }

  lemma ZeroWord(base: Bytes, b: Bytes, at: nat)
    requires at + 4 <= |base| == |b| && b[at..at + 4] == base[at..at + 4]
    requires base[at] == 0 && base[at + 1] == 0 && base[at + 2] == 0 && base[at + 3] == 0
    ensures Word(b, at) == 0
  {
    SameWord(b, base, at, at + 4, at, at);
  }

  /** It parses and can be transformed, so none of the above speaks of nothing. */
  lemma SmallestIsTransformable()
    ensures Parse(Smallest()).Some? && CanTransform(66, Parse(Smallest()).value, [65], 1, 1)
    ensures Ready(Smallest(), Parse(Smallest()).value, [65])
  {
    hide Word, Smallest;
    SmallestWords();
    SmallestRest();
    assert StringOk(Smallest(), 44, 46);
  }
}
