/**
 What the bytes of a CodeDirectory mean, from the writer's side: a directory is laid out field
 by field at the offsets of its struct, and the parser finds exactly what was laid out.
 */
module DirectoryLayout {
  import opened Wrappers
  import opened BigEndian
  import Bits
  import CD = CodeDirectory

  /** A directory to be written.  `base` supplies the header bytes nobody parses; a part that
      is absent is empty.  The slot counts and the hashes are given apart. */
  datatype Draft = Draft(
    base: Bytes,
    version: nat,
    flags: nat,
    specialSlots: nat,
    codeSlots: nat,
    limit: nat,
    longLimit: nat,
    hashSize: byte,
    hashType: byte,
    platform: byte,
    pageSize: byte,
    spare2: nat,
    spare3: nat,
    identifier: Bytes,
    team: Bytes,
    preEncrypt: Bytes,
    linkage: Bytes,
    scatter: Bytes,
    special: Bytes,
    code: Bytes)

  /** The fields each version adds. */
  function HeaderLength(version: nat): nat {
    44 + (if version >= 0x20100 then 4 else 0) + (if version >= 0x20200 then 4 else 0)
    + (if version >= 0x20300 then 4 + 8 else 0) + (if version >= 0x20400 then 3 * 8 else 0)
    + (if version >= 0x20500 then 4 + 4 else 0) + (if version >= 0x20600 then 4 + 4 + 4 else 0)
  }

  function Text(s: Bytes): Bytes {
    if s == [] then [] else s + [0]
  }

  function TeamAt(c: Draft): nat {
    HeaderLength(c.version) + |c.identifier| + 1
  }

  function PreEncryptAt(c: Draft): nat {
    TeamAt(c) + |Text(c.team)|
  }

  function LinkageAt(c: Draft): nat {
    PreEncryptAt(c) + |c.preEncrypt|
  }

  function ScatterAt(c: Draft): nat {
    LinkageAt(c) + |c.linkage|
  }

  function SpecialAt(c: Draft): nat {
    ScatterAt(c) + |c.scatter|
  }

  function CodeAt(c: Draft): nat {
    SpecialAt(c) + |c.special|
  }

  function Length(c: Draft): nat {
    CodeAt(c) + |c.code|
  }

  function Offset(part: Bytes, at: nat): nat {
    if part == [] then 0 else at
  }

  function OldFields(c: Draft): seq<Field> {
    [Field(0, 0xfade0c02), Field(4, Length(c)), Field(8, c.version), Field(12, c.flags), Field(16, CodeAt(c)),
     Field(20, HeaderLength(c.version)), Field(24, c.specialSlots), Field(28, c.codeSlots), Field(32, c.limit),
     Field(40, c.spare2)]
  }

  function LaterFields(c: Draft): seq<Field> {
    (if c.version >= 0x20100 then [Field(44, Offset(c.scatter, ScatterAt(c)))] else [])
    + (if c.version >= 0x20200 then [Field(48, Offset(c.team, TeamAt(c)))] else [])
    + (if c.version >= 0x20300 then
         [Field(52, c.spare3), Field(56, c.longLimit / WORD), Field(60, c.longLimit % WORD)] else [])
  }

  function NewestFields(c: Draft): seq<Field> {
    (if c.version >= 0x20500 then [Field(92, Offset(c.preEncrypt, PreEncryptAt(c)))] else [])
    + (if c.version >= 0x20600 then
         [Field(100, Offset(c.linkage, LinkageAt(c))), Field(104, |c.linkage|)] else [])
  }

  function Fields(c: Draft): seq<Field> {
    OldFields(c) + LaterFields(c) + NewestFields(c)
  }

  /** Fields have their widths, and parts only the versions that have them. */
  ghost predicate Writable(c: Draft) {
    && |c.base| == HeaderLength(c.version) && Length(c) < WORD
    && c.version < WORD && c.flags < WORD && c.specialSlots < WORD && c.codeSlots < WORD
    && c.limit < WORD && c.longLimit < WORD * WORD && c.spare2 < WORD && c.spare3 < WORD
    && (c.version < 0x20100 ==> c.scatter == [])
    && (c.version < 0x20200 ==> c.team == [])
    && (c.version < 0x20300 ==> c.longLimit == 0 && c.spare3 == 0)
    && (c.version < 0x20500 ==> c.preEncrypt == [])
    && (c.version < 0x20600 ==> c.linkage == [])
    && |c.special| == CD.Span(c.specialSlots, c.hashSize as nat)
    && (c.preEncrypt != [] ==> |c.preEncrypt| == CD.Span(c.codeSlots, c.hashSize as nat))
  }

  lemma FieldsAreFit(c: Draft)
    requires Writable(c)
    ensures FieldsFit(Fields(c), |c.base|)
  {
    hide CD.Span, FieldsFit, Ascending, OldFields, LaterFields, NewestFields, Length, CodeAt;
    OldFieldsFit(c);
    LaterFieldsFit(c);
    NewestFieldsFit(c);
    AscendingOn(OldFields(c), 0, 44, LaterFields(c), Least(64, |c.base|));
    AscendingOn(OldFields(c) + LaterFields(c), 0, Least(64, |c.base|), NewestFields(c), |c.base|);
    AscendingFit(Fields(c), 0, |c.base|);
  }

  function Least(a: nat, b: nat): nat {
    if a < b then a else b
  }

  lemma OldFieldsFit(c: Draft)
    requires Writable(c)
    ensures Ascending(OldFields(c), 0, 44)
  {
    hide CD.Span, CodeAt, Length;
    PlacesFit(c);
  }

  lemma LaterFieldsFit(c: Draft)
    requires Writable(c)
    ensures Ascending(LaterFields(c), 44, Least(64, |c.base|))
  {
    hide CD.Span, TeamAt, ScatterAt, Length;
    PlacesFit(c);
    LongHalves(c.longLimit);
  }

  lemma NewestFieldsFit(c: Draft)
    requires Writable(c)
    ensures Ascending(NewestFields(c), Least(64, |c.base|), |c.base|)
  {
    hide CD.Span, PreEncryptAt, LinkageAt, Length;
    PlacesFit(c);
  }

  lemma PlacesFit(c: Draft)
    requires Length(c) < WORD
    ensures HeaderLength(c.version) < TeamAt(c) <= PreEncryptAt(c) <= LinkageAt(c) <= ScatterAt(c)
    ensures ScatterAt(c) <= SpecialAt(c) <= CodeAt(c) <= Length(c) && |c.linkage| < WORD
  {
  }

  lemma LongHalves(v: nat)
    requires v < WORD * WORD
    ensures v / WORD < WORD && v == (v / WORD) * WORD + v % WORD
  {
  }

  ghost function Header(c: Draft): (h: Bytes)
    requires Writable(c)
    ensures |h| == HeaderLength(c.version)
  {
    FieldsAreFit(c);
    PutWords(Put(c.base, 36, [c.hashSize, c.hashType, c.platform, c.pageSize]), Fields(c))
  }

  function Hashes(c: Draft): Bytes {
    c.scatter + (c.special + c.code)
  }

  function Vectors(c: Draft): Bytes {
    c.preEncrypt + (c.linkage + Hashes(c))
  }

  function Body(c: Draft): Bytes {
    c.identifier + [0] + (Text(c.team) + Vectors(c))
  }

  ghost function Written(c: Draft): (b: Bytes)
    requires Writable(c)
    ensures |b| == Length(c)
  {
    Header(c) + Body(c)
  }

  // ----- What the parser must find -------------------------------------------------------

  function SigningLimit(c: Draft): nat {
    if c.longLimit != 0 then c.longLimit else c.limit
  }

  function Described(c: Draft): CD.Directory {
    CD.Directory(c.version, c.flags, SigningLimit(c), CodeAt(c), HeaderLength(c.version), c.specialSlots, c.codeSlots,
      SpecialAt(c), Offset(c.scatter, ScatterAt(c)), Offset(c.team, TeamAt(c)), Offset(c.preEncrypt, PreEncryptAt(c)),
      Offset(c.linkage, LinkageAt(c)), |c.linkage|, c.hashSize as nat, c.hashType as nat, c.pageSize as nat)
  }

  /** SHA-1, SHA-256, SHA-256 cut to twenty bytes, SHA-384. */
  predicate KnownHash(hashType: byte, hashSize: byte) {
    (hashType, hashSize) in {(1, 20), (2, 32), (3, 20), (4, 48)}
  }

  /** As many pages as reach the limit, and no more. */
  predicate PagesCover(pageSize: nat, limit: nat, slots: nat) {
    if pageSize == 0 then slots == (if limit == 0 then 0 else 1)
    else
      && pageSize <= 63 && 0 < limit
      && limit <= slots * Bits.Pow2(pageSize) < limit + Bits.Pow2(pageSize)
  }

  /** The scatter vector ends with an entry whose count is zero. */
  ghost predicate ScatterStops(scatter: Bytes) {
    exists k :: 0 <= k && EntryStops(scatter, k)
  }

  predicate EntryStops(scatter: Bytes, k: nat) {
    24 * k + 24 <= |scatter| && Word(scatter, 24 * k) == 0
  }

  ghost predicate Acceptable(c: Draft) {
    && 0x20001 <= c.version <= 0x20600
    && KnownHash(c.hashType, c.hashSize)
    && PagesCover(c.pageSize as nat, SigningLimit(c), c.codeSlots)
    && |c.code| == CD.Span(c.codeSlots, c.hashSize as nat)
    && c.spare2 == 0 && c.spare3 == 0
    && c.identifier != [] && c.identifier[0] != 0
    && (c.team == [] || c.team[0] != 0)
    && (c.scatter == [] || ScatterStops(c.scatter))
  }

  // ----- Reading the header back -----------------------------------------------------------

  lemma HeaderWord(c: Draft, f: Field)
    requires Writable(c) && f in Fields(c)
    ensures f.at + 4 <= HeaderLength(c.version) && Word(Written(c), f.at) == f.value
  {
    hide PutWords, Put, Word, Encode, Body, Length, Fields;
    FieldsAreFit(c);
    var base := Put(c.base, 36, [c.hashSize, c.hashType, c.platform, c.pageSize]);
    WordsReadAt(base, Fields(c), f);
    var h := Header(c);
    assert Written(c)[f.at..f.at + 4] == h[f.at..f.at + 4];
    SameWord(Written(c), h, f.at, f.at + 4, f.at, f.at);
  }

  lemma OldWords(c: Draft)
    requires Writable(c)
    ensures var b := Written(c);
            && Word(b, 0) == 0xfade0c02 && Word(b, 4) == |b| && Word(b, 8) == c.version && Word(b, 12) == c.flags
            && Word(b, 16) == CodeAt(c) && Word(b, 20) == HeaderLength(c.version) && Word(b, 24) == c.specialSlots
            && Word(b, 28) == c.codeSlots && Word(b, 32) == c.limit && Word(b, 40) == c.spare2
  {
    hide Word, Written, LaterFields, NewestFields, Writable;
    forall f | f in OldFields(c) ensures f.at + 4 <= HeaderLength(c.version) && Word(Written(c), f.at) == f.value {
      HeaderWord(c, f);
    }
    var all := OldFields(c);
    assert all[0] in all && all[1] in all && all[2] in all && all[3] in all && all[4] in all;
    assert all[5] in all && all[6] in all && all[7] in all && all[8] in all && all[9] in all;
  }

  lemma NewWords(c: Draft)
    requires Writable(c)
    ensures var b := Written(c);
            && (c.version >= 0x20100 ==> Word(b, 44) == Offset(c.scatter, ScatterAt(c)))
            && (c.version >= 0x20200 ==> Word(b, 48) == Offset(c.team, TeamAt(c)))
            && (c.version >= 0x20300 ==> Word(b, 52) == c.spare3 && Word(b, 56) * WORD + Word(b, 60) == c.longLimit)
            && (c.version >= 0x20500 ==> Word(b, 92) == Offset(c.preEncrypt, PreEncryptAt(c)))
            && (c.version >= 0x20600 ==>
                 Word(b, 100) == Offset(c.linkage, LinkageAt(c)) && Word(b, 104) == |c.linkage|)
  {
    hide Word, Written, OldFields, ScatterAt, TeamAt, PreEncryptAt, LinkageAt;
    LongHalves(c.longLimit);
    if c.version >= 0x20100 { HeaderWord(c, Field(44, Offset(c.scatter, ScatterAt(c)))); }
    if c.version >= 0x20200 { HeaderWord(c, Field(48, Offset(c.team, TeamAt(c)))); }
    if c.version >= 0x20300 {
      HeaderWord(c, Field(52, c.spare3));
      HeaderWord(c, Field(56, c.longLimit / WORD));
      HeaderWord(c, Field(60, c.longLimit % WORD));
    }
    if c.version >= 0x20500 { HeaderWord(c, Field(92, Offset(c.preEncrypt, PreEncryptAt(c)))); }
    if c.version >= 0x20600 {
      HeaderWord(c, Field(100, Offset(c.linkage, LinkageAt(c))));
      HeaderWord(c, Field(104, |c.linkage|));
    }
  }

  lemma FormatBytes(c: Draft)
    requires Writable(c)
    ensures var b := Written(c);
            b[36] == c.hashSize && b[37] == c.hashType && b[38] == c.platform && b[39] == c.pageSize
  {
    hide PutWords, Encode, Body;
    FieldsAreFit(c);
    var base := Put(c.base, 36, [c.hashSize, c.hashType, c.platform, c.pageSize]);
    var h := Header(c);
    WordsKeep(base, Fields(c), 36, 40);
    assert h[36..40] == base[36..40];
    assert h[36] == h[36..40][0] && h[37] == h[36..40][1] && h[38] == h[36..40][2] && h[39] == h[36..40][3];
  }

  lemma HeaderIsFramed(c: Draft)
    requires Writable(c)
    ensures CD.Framed(Written(c)) <==> 0x20001 <= c.version <= 0x20600
  {
    hide Word, Written;
    OldWords(c);
  }

  lemma HeaderReads(c: Draft)
    requires Writable(c) && 0x20001 <= c.version <= 0x20600
    ensures CD.Framed(Written(c)) && CD.Read(Written(c)) == Described(c)
    ensures CD.SparesOk(Written(c)) <==> c.spare2 == 0 && c.spare3 == 0
  {
    hide Word, Written, CD.Span;
    HeaderIsFramed(c);
    OldWords(c);
    NewWords(c);
    FormatBytes(c);
  }

  // ----- Reading the parts back --------------------------------------------------------------

  lemma Next(b: Bytes, at: nat, part: Bytes, rest: Bytes)
    requires at <= |b| && b[at..] == part + rest
    ensures at + |part| <= |b| && b[at..at + |part|] == part && b[at + |part|..] == rest
  {
    assert b[at..at + |part|] == b[at..][..|part|] && b[at + |part|..] == b[at..][|part|..];
  }

  lemma TextsRead(c: Draft)
    requires Writable(c)
    ensures TeamAt(c) <= PreEncryptAt(c) <= Length(c)
    ensures var b := Written(c);
            && b[HeaderLength(c.version)..TeamAt(c)] == c.identifier + [0]
            && b[TeamAt(c)..PreEncryptAt(c)] == Text(c.team) && b[PreEncryptAt(c)..] == Vectors(c)
  {
    hide Header, Text, Writable, HeaderLength, Vectors;
    var b := Written(c);
    Next(b, HeaderLength(c.version), c.identifier + [0], Text(c.team) + Vectors(c));
    Next(b, TeamAt(c), Text(c.team), Vectors(c));
  }

  lemma VectorsRead(c: Draft, b: Bytes)
    requires |b| == Length(c) && b[PreEncryptAt(c)..] == Vectors(c)
    ensures b[PreEncryptAt(c)..LinkageAt(c)] == c.preEncrypt && b[LinkageAt(c)..ScatterAt(c)] == c.linkage
    ensures b[ScatterAt(c)..] == Hashes(c)
  {
    hide Hashes, PreEncryptAt;
    Next(b, PreEncryptAt(c), c.preEncrypt, c.linkage + Hashes(c));
    Next(b, LinkageAt(c), c.linkage, Hashes(c));
  }

  lemma HashesRead(c: Draft, b: Bytes)
    requires |b| == Length(c) && b[ScatterAt(c)..] == Hashes(c)
    ensures b[ScatterAt(c)..SpecialAt(c)] == c.scatter
    ensures b[SpecialAt(c)..CodeAt(c)] == c.special && b[CodeAt(c)..] == c.code
  {
    hide ScatterAt;
    Next(b, ScatterAt(c), c.scatter, c.special + c.code);
    Next(b, SpecialAt(c), c.special, c.code);
  }

  lemma PartsRead(c: Draft)
    requires Writable(c)
    ensures var b := Written(c);
            && b[HeaderLength(c.version)..TeamAt(c)] == c.identifier + [0]
            && b[TeamAt(c)..PreEncryptAt(c)] == Text(c.team)
            && b[PreEncryptAt(c)..LinkageAt(c)] == c.preEncrypt && b[LinkageAt(c)..ScatterAt(c)] == c.linkage
            && b[ScatterAt(c)..SpecialAt(c)] == c.scatter
            && b[SpecialAt(c)..CodeAt(c)] == c.special && b[CodeAt(c)..] == c.code
  {
    hide Written, Writable, Vectors, Hashes;
    TextsRead(c);
    VectorsRead(c, Written(c));
    HashesRead(c, Written(c));
  }

  // ----- Its checks -----------------------------------------------------------------------------

  lemma StringIsThere(b: Bytes, at: nat, text: Bytes, end: nat)
    requires at + |text| < end <= |b| && b[at..at + |text| + 1] == text + [0]
    ensures CD.StringOk(b, at, end) <==> text != [] && text[0] != 0
  {
    var piece := b[at..at + |text| + 1];
    assert piece[|text|] == b[at + |text|] == 0;
    assert piece[0] == b[at];
  }

  lemma {:induction false} ScatterIff(b: Bytes, at: nat, end: nat)
    requires end <= |b|
    ensures CD.ScatterEnds(b, at, end) <==> exists k :: 0 <= k && at + 24 * k + 24 <= end && Word(b, at + 24 * k) == 0
    decreases end - at
  {
    hide Word;
    if at + 24 <= end {
      ScatterIff(b, at + 24, end);
      if Word(b, at) == 0 {
        assert at + 24 * 0 == at;
      } else {
        if k :| 0 <= k && at + 24 + 24 * k + 24 <= end && Word(b, at + 24 + 24 * k) == 0 {
          assert at + 24 * (k + 1) == at + 24 + 24 * k;
        }
        if k :| 0 <= k && at + 24 * k + 24 <= end && Word(b, at + 24 * k) == 0 {
          assert at + 24 + 24 * (k - 1) == at + 24 * k;
        }
      }
    }
  }

  lemma PagesIff(d: CD.Directory)
    ensures CD.CoverageOk(d) <==> PagesCover(d.pageSize, d.signingLimit, d.codeSlots)
  {
    if 0 < d.pageSize <= 63 && 0 < d.signingLimit {
      RoundedUp(d.signingLimit, Bits.Pow2(d.pageSize), d.codeSlots);
    }
  }

  lemma RoundedUp(limit: nat, page: nat, slots: nat)
    requires 0 < limit && 0 < page
    ensures slots == (limit - 1) / page + 1 <==> limit <= slots * page < limit + page
  {
    var q, r := (limit - 1) / page, (limit - 1) % page;
    assert limit - 1 == q * page + r;
    if slots <= q { Times(slots, q, page); }
    if q + 1 < slots { Times(q + 2, slots, page); }
  }

  lemma Times(a: nat, b: nat, n: nat)
    requires a <= b
    ensures a * n <= b * n
  {
  }

  lemma ScatterIsThere(b: Bytes, at: nat, scatter: Bytes)
    requires at + |scatter| <= |b| && b[at..at + |scatter|] == scatter
    ensures CD.ScatterEnds(b, at, at + |scatter|) <==> ScatterStops(scatter)
  {
    hide Word, CD.ScatterEnds;
    var end := at + |scatter|;
    ScatterIff(b, at, end);
    forall k: nat | at + 24 * k + 24 <= end ensures Word(b, at + 24 * k) == Word(scatter, 24 * k) {
      assert scatter[0..|scatter|] == scatter;
      SameWord(b, scatter, at, end, 0, at + 24 * k);
    }
    if ScatterStops(scatter) {
      var k :| 0 <= k && EntryStops(scatter, k);
      assert Word(b, at + 24 * k) == 0;
    }
    if k :| 0 <= k && at + 24 * k + 24 <= end && Word(b, at + 24 * k) == 0 { assert EntryStops(scatter, k); }
  }

  lemma OffsetsIff(c: Draft)
    requires Writable(c) && 0x20001 <= c.version <= 0x20600
    ensures SpecialAt(c) <= |Written(c)|
    ensures CD.OffsetsOk(Written(c), Described(c)) <==>
            && c.identifier != [] && c.identifier[0] != 0 && (c.team == [] || c.team[0] != 0)
            && (c.scatter == [] || ScatterStops(c.scatter))
  {
    hide Written, CD.StringOk, CD.ScatterEnds, ScatterStops, CD.Span;
    var b := Written(c);
    PartsRead(c);
    StringIsThere(b, HeaderLength(c.version), c.identifier, SpecialAt(c));
    if c.team != [] { StringIsThere(b, TeamAt(c), c.team, SpecialAt(c)); }
    ScatterIsThere(b, ScatterAt(c), c.scatter);
  }

  lemma HashesIff(c: Draft)
    requires Writable(c)
    ensures CD.HashesOk(Described(c), Length(c)) <==>
            KnownHash(c.hashType, c.hashSize) && |c.code| == CD.Span(c.codeSlots, c.hashSize as nat)
  {
    hide CD.Span;
  }

  /** The parser finds exactly what was laid out, and refuses exactly what is not a directory. */
  lemma WrittenParses(c: Draft)
    requires Writable(c)
    ensures CD.Parse(Written(c)) == if Acceptable(c) then Some(Described(c)) else None
  {
    hide Written, CD.Read, CD.Framed, CD.SparesOk, CD.CoverageOk, CD.HashesOk, CD.OffsetsOk, PagesCover, KnownHash,
         ScatterStops, CD.Span, Writable;
    HeaderIsFramed(c);
    if 0x20001 <= c.version <= 0x20600 {
      HeaderReads(c);
      PagesIff(Described(c));
      HashesIff(c);
      OffsetsIff(c);
    }
  }

  lemma SpecialSlot(b: Bytes, d: CD.Directory, special: Bytes, slot: nat)
    requires CD.HashesOk(d, |b|) && |special| == CD.Span(d.specialSlots, d.hashSize) && 1 <= slot <= d.specialSlots
    requires b[d.hashOffset - |special|..d.hashOffset] == special
    ensures d.hashSize <= CD.Span(slot, d.hashSize) <= |special|
    ensures CD.Slot(b, d, slot) == special[|special| - CD.Span(slot, d.hashSize)..][..d.hashSize]
  {
    hide CD.Span, CD.HashSize, CD.HeaderSize;
    CD.SlotFits(d, slot);
    var from := |special| - CD.Span(slot, d.hashSize);
    assert special[from..][..d.hashSize] == special[from..from + d.hashSize];
    var at := d.hashOffset - CD.Span(slot, d.hashSize);
    assert CD.Slot(b, d, slot) == b[at..][..d.hashSize] == b[at..at + d.hashSize];
    Inside(b, d.hashOffset - |special|, special, from, d.hashSize);
  }

  lemma Inside(b: Bytes, at: nat, part: Bytes, from: nat, n: nat)
    requires at + |part| <= |b| && b[at..at + |part|] == part && from + n <= |part|
    ensures b[at + from..at + from + n] == part[from..from + n]
  {
    forall i | from <= i < from + n ensures b[at + i] == part[i] { assert b[at..at + |part|][i] == part[i]; }
  }

  /** What the parts of the parsed directory hold; special slots count backwards from the code. */
  lemma WrittenHolds(c: Draft, slot: nat)
    requires Writable(c) && Acceptable(c)
    ensures var b, d, size := Written(c), Described(c), c.hashSize as nat;
            && CD.HashesOk(d, |b|) && CD.CodeHashes(b, d) == c.code
            && (CD.NoNul(c.identifier) ==> CD.StringAt(b, d.identifierOffset) == c.identifier)
            && (CD.NoNul(c.team) && c.team != [] ==> CD.StringAt(b, d.teamOffset) == c.team)
            && (1 <= slot <= c.specialSlots ==>
                 && size <= CD.Span(slot, size) <= |c.special|
                 && CD.Slot(b, d, slot) == c.special[|c.special| - CD.Span(slot, size)..][..size])
  {
    hide Written, PagesCover, KnownHash, ScatterStops, CD.Span, CD.StringAt, CD.NoNul, CD.Slot;
    var b := Written(c);
    PartsRead(c);
    HashesIff(c);
    if CD.NoNul(c.identifier) { CD.TextIsString(b, HeaderLength(c.version), c.identifier); }
    if CD.NoNul(c.team) && c.team != [] { CD.TextIsString(b, TeamAt(c), c.team); }
    if 1 <= slot <= c.specialSlots { SpecialSlot(b, Described(c), c.special, slot); }
  }
}
