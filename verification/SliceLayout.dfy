/**
 What the bytes of a Mach-O slice mean, from the writer's side: load commands are laid out field
 by field, in either byte order and either width, and the reader finds exactly what was laid out.
 */
module SliceLayout {
  import opened Wrappers
  import opened BigEndian
  import M = MachOSlice

  // ----- Words in either byte order ---------------------------------------------------------

  /** The big-endian word whose bytes are those of `v` in the given order. */
  function Turn(v: nat, swap: bool): (w: nat)
    requires v < WORD
    ensures w < WORD
  {
    if swap then v
    else v % 256 * 0x100_0000 + v / 256 % 256 * 0x1_0000 + v / 0x1_0000 % 256 * 256 + v / 0x100_0000
  }

  lemma TurnedReads(s: Bytes, at: nat, v: nat, swap: bool)
    requires at + 4 <= |s| && v < WORD && Word(s, at) == Turn(v, swap)
    ensures M.Native(s, at, swap) == v
  {
    if !swap {
      var a, b, c, d := s[at] as nat, s[at + 1] as nat, s[at + 2] as nat, s[at + 3] as nat;
      FourDigits(v);
      Digits(a, b, c, d, v % 256, v / 256 % 256, v / 0x1_0000 % 256, v / 0x100_0000);
    }
  }

  lemma FourDigits(v: nat)
    requires v < WORD
    ensures v / 0x100_0000 < 256
    ensures v == ((v / 0x100_0000 * 256 + v / 0x1_0000 % 256) * 256 + v / 256 % 256) * 256 + v % 256
  {
    var high := v / 256;
    var higher := high / 256;
    assert v == high * 256 + v % 256 && high == higher * 256 + high % 256;
    assert higher == v / 0x1_0000 && higher == higher / 256 * 256 + higher % 256;
    assert higher / 256 == v / 0x100_0000;
  }

  lemma Digits(a: nat, b: nat, c: nat, d: nat, p: nat, q: nat, r: nat, t: nat)
    requires a < 256 && b < 256 && c < 256 && d < 256 && p < 256 && q < 256 && r < 256 && t < 256
    requires ((a * 256 + b) * 256 + c) * 256 + d == p * 0x100_0000 + q * 0x1_0000 + r * 256 + t
    ensures a == p && b == q && c == r && d == t
  {
  }

  ghost predicate Narrow(fields: seq<Field>) {
    forall k :: 0 <= k < |fields| ==> fields[k].value < WORD
  }

  function Turned(fields: seq<Field>, swap: bool): (r: seq<Field>)
    requires Narrow(fields)
    ensures |r| == |fields|
    ensures forall k :: 0 <= k < |r| ==> r[k] == Field(fields[k].at, Turn(fields[k].value, swap))
  {
    seq(|fields|, k requires 0 <= k < |fields| => Field(fields[k].at, Turn(fields[k].value, swap)))
  }

  lemma TurnedFit(fields: seq<Field>, swap: bool, n: nat)
    requires FieldsFit(fields, n)
    ensures Narrow(fields) && FieldsFit(Turned(fields, swap), n)
  {
    hide Turn;
  }

  /** `s` with the fields written over it in the given byte order. */
  ghost function PutNatives(s: Bytes, fields: seq<Field>, swap: bool): (r: Bytes)
    requires FieldsFit(fields, |s|)
    ensures |r| == |s|
  {
    TurnedFit(fields, swap, |s|);
    PutWords(s, Turned(fields, swap))
  }

  lemma NativesRead(s: Bytes, fields: seq<Field>, swap: bool, f: Field)
    requires FieldsFit(fields, |s|) && f in fields
    ensures f.at + 4 <= |s| && f.value < WORD && M.Native(PutNatives(s, fields, swap), f.at, swap) == f.value
  {
    hide PutWords, Word, Turn, M.Native;
    TurnedFit(fields, swap, |s|);
    var k :| 0 <= k < |fields| && fields[k] == f;
    WordsRead(s, Turned(fields, swap), k);
    TurnedReads(PutNatives(s, fields, swap), f.at, f.value, swap);
  }

  lemma NativesKeep(s: Bytes, fields: seq<Field>, swap: bool, lo: nat, hi: nat)
    requires FieldsFit(fields, |s|) && lo <= hi <= |s| && Untouched(fields, lo, hi)
    ensures PutNatives(s, fields, swap)[lo..hi] == s[lo..hi]
  {
    hide PutWords, Turn;
    TurnedFit(fields, swap, |s|);
    WordsKeep(s, Turned(fields, swap), lo, hi);
  }

  /** A 64-bit value as two words. */
  function Long(at: nat, v: nat, swap: bool): (r: seq<Field>)
    ensures |r| == 2
  {
    if swap then [Field(at, v / WORD), Field(at + 4, v % WORD)] else [Field(at, v % WORD), Field(at + 4, v / WORD)]
  }

  lemma LongReads(s: Bytes, at: nat, v: nat, swap: bool)
    requires at + 8 <= |s| && v < WORD * WORD
    requires var f := Long(at, v, swap);
             M.Native(s, at, swap) == f[0].value && M.Native(s, at + 4, swap) == f[1].value
    ensures M.Native64(s, at, swap) == v
  {
    hide M.Native;
    assert v == v / WORD * WORD + v % WORD;
  }

  // ----- Load commands --------------------------------------------------------------------------

  /** A load command to be written.  `base` has its size and supplies the bytes nobody reads;
      `long` is the variant with 64-bit fields. */
  datatype LoadCommand =
    | Segment(base: Bytes, long: bool, name: Bytes, vmAddress: nat, vmSize: nat, fileOffset: nat, fileSize: nat,
        sections: nat)
    | Encryption(base: Bytes, long: bool, offset: nat, size: nat, identifier: nat)
    | Signature(base: Bytes, offset: nat, size: nat)
    | LinkeditData(base: Bytes, kind: nat, offset: nat, size: nat)
    | Build(base: Bytes, platform: nat, minOS: nat, sdk: nat, tools: nat)
    | Minimum(base: Bytes, kind: nat, sdk: nat)
    | Text(base: Bytes, kind: nat, offset: nat)
    | Options(base: Bytes, count: nat)
    | Fileset(base: Bytes, fileOffset: nat, offset: nat)
    | Sized(base: Bytes, kind: nat)

  const DYLIBS: set<nat> := {0x0c, 0x0d, 0x80000018, 0x8000001f, 0x20, 0x80000023}
  const PATHS: set<nat> := {0x8000001c, 0x0e, 0x0f, 0x27, 0x12, 0x13, 0x14, 0x15, 0x39}
  const TABLES: set<nat> := {0x1e, 0x26, 0x29, 0x2b, 0x2e, 0x80000033, 0x80000034, 0x36, 0x37, 0x38}
  const MINIMUMS: set<nat> := {0x24, 0x25, 0x2f, 0x30}

  /** Commands with a layout of their own, and the least size each takes. */
  function Structured(kind: nat): Option<nat> {
    if kind == 0x01 then Some(56)
    else if kind == 0x19 then Some(72)
    else if kind == 0x21 then Some(20)
    else if kind == 0x2c then Some(24)
    else if kind == 0x1d then Some(16)
    else if kind == 0x32 then Some(24)
    else if kind == 0x2d then Some(12)
    else if kind == 0x80000035 then Some(32)
    else if kind in DYLIBS then Some(24)
    else if kind in PATHS then Some(12)
    else if kind in TABLES then Some(16)
    else if kind in MINIMUMS then Some(16)
    else None
  }

  /** Symbol tables, threads, routines, hints, checksums, identifiers, dynamic linker data,
      entry points, source versions and notes are only measured. */
  const MEASURED: map<nat, nat> :=
    map[0x02 := 24, 0x03 := 16, 0x04 := 8, 0x05 := 8, 0x0b := 80, 0x11 := 40, 0x16 := 16, 0x17 := 12, 0x1a := 72,
        0x1b := 24, 0x22 := 48, 0x80000022 := 48, 0x80000028 := 24, 0x2a := 16, 0x31 := 40]

  function Kind(c: LoadCommand): nat {
    match c
    case Segment(_, long, _, _, _, _, _, _) => if long then 0x19 else 0x01
    case Encryption(_, long, _, _, _) => if long then 0x2c else 0x21
    case Signature(_, _, _) => 0x1d
    case LinkeditData(_, kind, _, _) => kind
    case Build(_, _, _, _, _) => 0x32
    case Minimum(_, kind, _) => kind
    case Text(_, kind, _) => kind
    case Options(_, _) => 0x2d
    case Fileset(_, _, _) => 0x80000035
    case Sized(_, kind) => kind
  }

  /** What its own fields hold, at the offsets of its struct. */
  function Fields(c: LoadCommand, swap: bool): seq<Field> {
    match c
    case Segment(_, long, _, vmAddress, vmSize, fileOffset, fileSize, sections) =>
      if long then
        Long(24, vmAddress, swap) + Long(32, vmSize, swap) + Long(40, fileOffset, swap) + Long(48, fileSize, swap)
        + [Field(64, sections)]
      else [Field(24, vmAddress), Field(28, vmSize), Field(32, fileOffset), Field(36, fileSize), Field(48, sections)]
    case Encryption(_, _, offset, size, identifier) => [Field(8, offset), Field(12, size), Field(16, identifier)]
    case Signature(_, offset, size) => [Field(8, offset), Field(12, size)]
    case LinkeditData(_, _, offset, size) => [Field(8, offset), Field(12, size)]
    case Build(_, platform, minOS, sdk, tools) =>
      [Field(8, platform), Field(12, minOS), Field(16, sdk), Field(20, tools)]
    case Minimum(_, _, sdk) => [Field(12, sdk)]
    case Text(_, _, offset) => [Field(8, offset)]
    case Options(_, count) => [Field(8, count)]
    case Fileset(_, fileOffset, offset) => Long(16, fileOffset, swap) + [Field(24, offset)]
    case Sized(_, _) => []
  }

  function AllFields(c: LoadCommand, swap: bool): seq<Field> {
    [Field(0, Kind(c)), Field(4, |c.base|)] + Fields(c, swap)
  }

  /** The command has room for its fields, and they have their widths. */
  ghost predicate Suited(c: LoadCommand) {
    && 8 <= |c.base| < WORD && Kind(c) < WORD
    && (!c.Sized? ==> Structured(Kind(c)).Some? && Structured(Kind(c)).value <= |c.base|)
    && match c
       case Segment(_, long, name, vmAddress, vmSize, fileOffset, fileSize, sections) =>
         var limit := if long then WORD * WORD else WORD;
         && |name| == 16 && sections < WORD
         && vmAddress < limit && vmSize < limit && fileOffset < limit && fileSize < limit
       case Encryption(_, _, offset, size, identifier) => offset < WORD && size < WORD && identifier < WORD
       case Signature(_, offset, size) => offset < WORD && size < WORD
       case LinkeditData(_, kind, offset, size) => kind in TABLES && offset < WORD && size < WORD
       case Build(_, platform, minOS, sdk, tools) => platform < WORD && minOS < WORD && sdk < WORD && tools < WORD
       case Minimum(_, kind, sdk) => kind in MINIMUMS && sdk < WORD
       case Text(_, kind, offset) => (kind in DYLIBS || kind in PATHS) && offset < WORD
       case Options(_, count) => count < WORD
       case Fileset(_, fileOffset, offset) => fileOffset < WORD * WORD && offset < WORD
       case Sized(base, kind) => Structured(kind).Some? ==> |base| < Structured(kind).value
  }

  lemma FieldsAreFit(c: LoadCommand, swap: bool)
    requires Suited(c)
    ensures FieldsFit(AllFields(c, swap), |c.base|)
  {
    hide FieldsFit, Fields;
    var first := [Field(0, Kind(c)), Field(4, |c.base|)];
    OwnFieldsAscend(c, swap);
    AscendingOn(first, 0, 8, Fields(c, swap), |c.base|);
    AscendingFit(first + Fields(c, swap), 0, |c.base|);
  }

  lemma LeastRoom(c: LoadCommand)
    requires Suited(c)
    ensures match c
            case Segment(base, long, _, _, _, _, _, _) => |base| >= if long then 72 else 56
            case Encryption(base, long, _, _, _) => |base| >= if long then 24 else 20
            case Signature(base, _, _) => |base| >= 16
            case LinkeditData(base, _, _, _) => |base| >= 16
            case Build(base, _, _, _, _) => |base| >= 24
            case Minimum(base, _, _) => |base| >= 16
            case Text(base, _, _) => |base| >= 12
            case Options(base, _) => |base| >= 12
            case Fileset(base, _, _) => |base| >= 32
            case Sized(base, _) => |base| >= 8
  {
  }

  lemma OwnFieldsAscend(c: LoadCommand, swap: bool)
    requires Suited(c)
    ensures Ascending(Fields(c, swap), 8, |c.base|)
  {
    hide Long, Structured;
    LeastRoom(c);
    if c.Segment? {
      if c.long { LongSegmentAscends(c, swap); }
    } else if c.Fileset? {
      LongAscends(16, c.fileOffset, swap);
    }
  }

  lemma LongAscends(at: nat, v: nat, swap: bool)
    requires v < WORD * WORD
    ensures |Long(at, v, swap)| == 2 && Ascending(Long(at, v, swap), at, at + 8)
  {
    assert v / WORD < WORD;
  }

  lemma LongSegmentAscends(c: LoadCommand, swap: bool)
    requires Suited(c) && c.Segment? && c.long
    ensures Ascending(Fields(c, swap), 8, |c.base|)
  {
    hide Long, Ascending;
    var a, b, d, e := Long(24, c.vmAddress, swap), Long(32, c.vmSize, swap), Long(40, c.fileOffset, swap),
      Long(48, c.fileSize, swap);
    LongAscends(24, c.vmAddress, swap);
    LongAscends(32, c.vmSize, swap);
    LongAscends(40, c.fileOffset, swap);
    LongAscends(48, c.fileSize, swap);
    AscendingOn(a, 24, 32, b, 40);
    AscendingOn(a + b, 24, 40, d, 48);
    AscendingOn(a + b + d, 24, 48, e, 56);
    OneAscends(Field(64, c.sections), 56, |c.base|);
    AscendingOn(a + b + d + e, 24, 56, [Field(64, c.sections)], |c.base|);
    AscendingFrom(a + b + d + e + [Field(64, c.sections)], 24, 8, |c.base|);
  }

  lemma OneAscends(f: Field, from: nat, n: nat)
    requires from <= f.at && f.at + 4 <= n && f.value < WORD
    ensures Ascending([f], from, n)
  {
  }

  lemma AscendingFrom(fields: seq<Field>, from: nat, earlier: nat, n: nat)
    requires Ascending(fields, from, n) && earlier <= from
    ensures Ascending(fields, earlier, n)
  {
  }

  /** A segment has its name at 8. */
  function WithName(c: LoadCommand): (b: Bytes)
    requires c.Segment? ==> 24 <= |c.base| && |c.name| == 16
    ensures |b| == |c.base|
  {
    if c.Segment? then Put(c.base, 8, c.name) else c.base
  }

  ghost function Encoded(c: LoadCommand, swap: bool): (b: Bytes)
    requires Suited(c)
    ensures |b| == |c.base|
  {
    FieldsAreFit(c, swap);
    PutNatives(WithName(c), AllFields(c, swap), swap)
  }

  // ----- What the reader must make of a command ---------------------------------------------------

  /** Where the command stands: the width of its slice, where the commands end, how long the
      slice is. */
  datatype Place = Place(wide: bool, end: nat, slice: nat)

  predicate Inside(offset: nat, size: nat, whole: nat) {
    offset + size <= whole
  }

  /** NUL-terminated `text` at the start of `name`. */
  predicate Spells(name: Bytes, text: string) {
    && |text| < |name| && name[|text|] == 0
    && forall i :: 0 <= i < |text| ==> name[i] as int == text[i] as int
  }

  /** A NUL at or behind `from`. */
  predicate Ends(base: Bytes, from: nat) {
    exists i :: from <= i < |base| && base[i] == 0
  }

  function Nuls(s: Bytes): nat {
    if s == [] then 0 else (if s[0] == 0 then 1 else 0) + Nuls(s[1..])
  }

  /** Nothing if the reader must refuse it. */
  function Told(c: LoadCommand, p: Place, at: nat, st: M.Commands): Option<M.Commands> {
    match c
    case Segment(base, long, name, vmAddress, vmSize, fileOffset, fileSize, sections) =>
      if || long != p.wide || |base| != (if long then 72 + sections * 80 else 56 + sections * 68)
         || !Inside(fileOffset, fileSize, p.slice) || vmAddress + vmSize >= 0x1_0000_0000_0000_0000 then None
      else if !Spells(name, "__LINKEDIT") then Some(st)
      else if st.linkedit.Some? || vmSize < fileSize then None
      else Some(st.(linkedit := Some(M.Linkedit(at, vmAddress, vmSize, M.Range(fileOffset, fileSize)))))
    case Encryption(base, long, offset, size, identifier) =>
      if || long != p.wide || st.encryption.Some?
         || (size != 0 && (offset < p.end || !Inside(offset, size, p.slice))) then None
      else Some(st.(encryption := Some(M.Encryption(M.Range(offset, size), identifier))))
    case Signature(base, offset, size) =>
      if |base| != 16 || st.signature.Some? || size == 0 || offset < p.end || !Inside(offset, size, p.slice) then None
      else Some(st.(signature := Some(M.Range(offset, size))))
    case LinkeditData(base, kind, offset, size) =>
      if size == 0 then (if offset <= p.slice then Some(st) else None)
      else if offset < p.end || !Inside(offset, size, p.slice) || |st.ranges| >= 1000 then None
      else Some(st.(ranges := st.ranges + [M.Range(offset, size)]))
    case Build(base, platform, minOS, sdk, tools) =>
      if st.build.Some? || |base| < 24 + 8 * tools then None
      else Some(st.(build := Some(M.Version(at, platform, minOS, sdk))))
    case Minimum(base, kind, sdk) =>
      if kind != 0x25 then Some(st)
      else if st.minimumSDK.Some? then None
      else Some(st.(minimumSDK := Some(sdk)))
    case Text(base, kind, offset) =>
      if (if kind in DYLIBS then 24 else 12) <= offset && Ends(base, offset) then Some(st) else None
    case Options(base, count) =>
      if |base| >= 12 && count <= Nuls(base[12..]) then Some(st) else None
    case Fileset(base, fileOffset, offset) =>
      if p.end <= fileOffset < p.slice && 32 <= offset && Ends(base, offset) then Some(st) else None
    case Sized(base, kind) =>
      if Structured(kind).Some? || (kind in MEASURED && |base| < MEASURED[kind]) then None else Some(st)
  }

  predicate Placed(h: M.Header, p: Place) {
    p.wide == !h.is32Bit && p.end == M.CommandsEnd(h)
  }

  // ----- One command read back ----------------------------------------------------------------------

  lemma FieldReads(c: LoadCommand, swap: bool, f: Field)
    requires Suited(c) && f in AllFields(c, swap)
    ensures f.at + 4 <= |c.base| && M.Native(Encoded(c, swap), f.at, swap) == f.value
  {
    hide PutNatives, M.Native, AllFields, Put;
    FieldsAreFit(c, swap);
    NativesRead(WithName(c), AllFields(c, swap), swap, f);
  }

  lemma LongFieldReads(c: LoadCommand, swap: bool, at: nat, v: nat)
    requires Suited(c) && v < WORD * WORD
    requires forall f :: f in Long(at, v, swap) ==> f in AllFields(c, swap)
    ensures at + 8 <= |c.base| && M.Native64(Encoded(c, swap), at, swap) == v
  {
    hide M.Native, M.Native64, Encoded, AllFields, Suited;
    var f := Long(at, v, swap);
    FieldReads(c, swap, f[0]);
    FieldReads(c, swap, f[1]);
    LongReads(Encoded(c, swap), at, v, swap);
  }

  lemma ShortSegmentReads(c: LoadCommand, h: M.Header, p: Place, at: nat, st: M.Commands)
    requires Suited(c) && c.Segment? && !c.long && Placed(h, p)
    ensures M.ReadSegment(Encoded(c, h.swapped), false, h, p.slice, at, st) == Told(c, p, at, st)
  {
    hide M.Native, Encoded, Spells;
    var swap, b := h.swapped, Encoded(c, h.swapped);
    FieldReads(c, swap, Field(24, c.vmAddress));
    FieldReads(c, swap, Field(28, c.vmSize));
    FieldReads(c, swap, Field(32, c.fileOffset));
    FieldReads(c, swap, Field(36, c.fileSize));
    FieldReads(c, swap, Field(48, c.sections));
    NameReads(c, swap);
  }

  lemma LongSegmentWords(c: LoadCommand, swap: bool)
    requires Suited(c) && c.Segment? && c.long
    ensures var b := Encoded(c, swap);
            && 72 <= |b| && M.Native64(b, 24, swap) == c.vmAddress && M.Native64(b, 32, swap) == c.vmSize
            && M.Native64(b, 40, swap) == c.fileOffset && M.Native64(b, 48, swap) == c.fileSize
            && M.Native(b, 64, swap) == c.sections
  {
    hide M.Native, M.Native64, Encoded, Long, AllFields;
    LongFields(c, swap);
    LongFieldReads(c, swap, 24, c.vmAddress);
    LongFieldReads(c, swap, 32, c.vmSize);
    LongFieldReads(c, swap, 40, c.fileOffset);
    LongFieldReads(c, swap, 48, c.fileSize);
    FieldReads(c, swap, Field(64, c.sections));
  }

  lemma LongSegmentReads(c: LoadCommand, h: M.Header, p: Place, at: nat, st: M.Commands)
    requires Suited(c) && c.Segment? && c.long && Placed(h, p)
    ensures M.ReadSegment(Encoded(c, h.swapped), true, h, p.slice, at, st) == Told(c, p, at, st)
  {
    hide M.Native, M.Native64, Encoded, Spells, Suited;
    LongSegmentWords(c, h.swapped);
    NameReads(c, h.swapped);
  }

  lemma LongFields(c: LoadCommand, swap: bool)
    requires c.Segment? && c.long
    ensures forall f :: f in Long(24, c.vmAddress, swap) ==> f in AllFields(c, swap)
    ensures forall f :: f in Long(32, c.vmSize, swap) ==> f in AllFields(c, swap)
    ensures forall f :: f in Long(40, c.fileOffset, swap) ==> f in AllFields(c, swap)
    ensures forall f :: f in Long(48, c.fileSize, swap) ==> f in AllFields(c, swap)
    ensures Field(64, c.sections) in AllFields(c, swap)
  {
    hide Long;
  }

  lemma NameReads(c: LoadCommand, swap: bool)
    requires Suited(c) && c.Segment?
    ensures 24 <= |c.base| && (Encoded(c, swap)[8..19] == M.LINKEDIT_NAME <==> Spells(c.name, "__LINKEDIT"))
  {
    hide PutNatives, AllFields;
    FieldsAreFit(c, swap);
    NameUntouched(c, swap);
    NativesKeep(WithName(c), AllFields(c, swap), swap, 8, 19);
    assert WithName(c)[8..19] == c.name[..11];
    NameIsLinkedit(c.name);
  }

  lemma NameUntouched(c: LoadCommand, swap: bool)
    requires Suited(c) && c.Segment?
    ensures Untouched(AllFields(c, swap), 8, 24)
  {
  }

  lemma NameIsLinkedit(name: Bytes)
    requires |name| == 16
    ensures name[..11] == M.LINKEDIT_NAME <==> Spells(name, "__LINKEDIT")
  {
    var text, known := "__LINKEDIT", M.LINKEDIT_NAME;
    assert |text| == 10 && |known| == 11 && known[10] == 0;
    assert forall i :: 0 <= i < 10 ==> known[i] as int == text[i] as int;
  }

  lemma EncryptionReads(c: LoadCommand, h: M.Header, p: Place, at: nat, st: M.Commands)
    requires Suited(c) && c.Encryption? && Placed(h, p)
    ensures M.ReadEncryption(Encoded(c, h.swapped), c.long, h, p.slice, st) == Told(c, p, at, st)
  {
    hide M.Native, Encoded;
    FieldReads(c, h.swapped, Field(8, c.offset));
    FieldReads(c, h.swapped, Field(12, c.size));
    FieldReads(c, h.swapped, Field(16, c.identifier));
  }

  lemma SignatureReads(c: LoadCommand, h: M.Header, p: Place, at: nat, st: M.Commands)
    requires Suited(c) && c.Signature? && Placed(h, p)
    ensures M.ReadSignature(Encoded(c, h.swapped), h, p.slice, st) == Told(c, p, at, st)
  {
    hide M.Native, Encoded;
    FieldReads(c, h.swapped, Field(8, c.offset));
    FieldReads(c, h.swapped, Field(12, c.size));
  }

  lemma LinkeditDataReads(c: LoadCommand, h: M.Header, p: Place, at: nat, st: M.Commands)
    requires Suited(c) && c.LinkeditData? && Placed(h, p)
    ensures M.ReadLinkeditData(Encoded(c, h.swapped), h, p.slice, st) == Told(c, p, at, st)
  {
    hide M.Native, Encoded;
    FieldReads(c, h.swapped, Field(8, c.offset));
    FieldReads(c, h.swapped, Field(12, c.size));
  }

  lemma BuildReads(c: LoadCommand, h: M.Header, p: Place, at: nat, st: M.Commands)
    requires Suited(c) && c.Build? && Placed(h, p)
    ensures M.ReadBuild(Encoded(c, h.swapped), h, at, st) == Told(c, p, at, st)
  {
    hide M.Native, Encoded;
    FieldReads(c, h.swapped, Field(8, c.platform));
    FieldReads(c, h.swapped, Field(12, c.minOS));
    FieldReads(c, h.swapped, Field(16, c.sdk));
    FieldReads(c, h.swapped, Field(20, c.tools));
  }

  lemma MinimumReads(c: LoadCommand, h: M.Header, p: Place, at: nat, st: M.Commands)
    requires Suited(c) && c.Minimum? && Placed(h, p)
    ensures M.ReadMinimum(Encoded(c, h.swapped), c.kind == 0x25, h, st) == Told(c, p, at, st)
  {
    hide M.Native, Encoded;
    FieldReads(c, h.swapped, Field(12, c.sdk));
  }

  /** Behind its fields a command holds the bytes of its base. */
  lemma RestStays(c: LoadCommand, swap: bool, from: nat)
    requires Suited(c) && !c.Segment? && from <= |c.base|
    requires forall f :: f in AllFields(c, swap) ==> f.at + 4 <= from
    ensures Encoded(c, swap)[from..] == c.base[from..]
  {
    hide PutNatives, AllFields;
    FieldsAreFit(c, swap);
    var b, fields := Encoded(c, swap), AllFields(c, swap);
    assert Untouched(fields, from, |c.base|) by {
      forall k | 0 <= k < |fields| ensures fields[k].at + 4 <= from { assert fields[k] in fields; }
    }
    NativesKeep(c.base, fields, swap, from, |c.base|);
    assert b[from..|c.base|] == b[from..] && c.base[from..|c.base|] == c.base[from..];
  }

  lemma SameEnds(b: Bytes, base: Bytes, least: nat, from: nat)
    requires |b| == |base| && least <= from && least <= |b| && b[least..] == base[least..]
    ensures M.HasNul(b, from) <==> Ends(base, from)
  {
    assert forall i :: least <= i < |b| ==> b[i] == b[least..][i - least] && base[i] == base[least..][i - least];
  }

  lemma TextReads(c: LoadCommand, h: M.Header, p: Place, at: nat, st: M.Commands)
    requires Suited(c) && c.Text? && Placed(h, p)
    ensures var least := if c.kind in DYLIBS then 24 else 12;
            M.If(M.StringOk(Encoded(c, h.swapped), h.swapped, least), st) == Told(c, p, at, st)
  {
    hide M.Native, Encoded, M.HasNul, Ends;
    FieldReads(c, h.swapped, Field(8, c.offset));
    RestStays(c, h.swapped, 12);
    if c.offset >= 12 { SameEnds(Encoded(c, h.swapped), c.base, 12, c.offset); }
    if c.offset >= |c.base| { NothingEnds(c.base, c.offset); }
  }

  lemma NothingEnds(base: Bytes, from: nat)
    requires |base| <= from
    ensures !Ends(base, from)
  {
  }

  lemma {:induction false} StringsCount(b: Bytes, from: nat, count: nat)
    requires from <= |b|
    ensures M.StringsOk(b, from, count) <==> count <= Nuls(b[from..])
    decreases |b| - from
  {
    if from < |b| && count > 0 {
      assert b[from..][1..] == b[from + 1..];
      StringsCount(b, from + 1, if b[from] == 0 then count - 1 else count);
    }
  }

  lemma OptionsReads(c: LoadCommand, h: M.Header, p: Place, at: nat, st: M.Commands)
    requires Suited(c) && c.Options? && Placed(h, p)
    ensures M.If(M.OptionsOk(Encoded(c, h.swapped), h.swapped), st) == Told(c, p, at, st)
  {
    hide M.Native, Encoded, M.StringsOk, Nuls;
    FieldReads(c, h.swapped, Field(8, c.count));
    RestStays(c, h.swapped, 12);
    StringsCount(Encoded(c, h.swapped), 12, c.count);
  }

  lemma FilesetReads(c: LoadCommand, h: M.Header, p: Place, at: nat, st: M.Commands)
    requires Suited(c) && c.Fileset? && Placed(h, p)
    ensures M.If(M.FilesetOk(Encoded(c, h.swapped), h, p.slice), st) == Told(c, p, at, st)
  {
    hide M.Native, M.Native64, Encoded, M.HasNul, Ends;
    LongFieldReads(c, h.swapped, 16, c.fileOffset);
    FieldReads(c, h.swapped, Field(24, c.offset));
    RestStays(c, h.swapped, 28);
    if c.offset >= 28 { SameEnds(Encoded(c, h.swapped), c.base, 28, c.offset); }
    if c.offset >= |c.base| { NothingEnds(c.base, c.offset); }
  }

  lemma SizedReads(c: LoadCommand, h: M.Header, p: Place, at: nat, st: M.Commands)
    requires Suited(c) && c.Sized? && Placed(h, p)
    ensures M.ReadCommand(c.kind, Encoded(c, h.swapped), h, p.slice, at, st) == Told(c, p, at, st)
  {
    hide M.Native, M.Native64, Encoded, M.HasNul, M.StringsOk, M.LeastSize;
    if Structured(c.kind).None? { Measures(c.kind); }
  }

  lemma Measures(kind: nat)
    ensures M.LeastSize(kind) == if kind in MEASURED then MEASURED[kind] else 0
  {
  }

  /** Every load command is read as it was written. */
  lemma CommandReads(c: LoadCommand, h: M.Header, p: Place, at: nat, st: M.Commands)
    requires Suited(c) && Placed(h, p)
    ensures M.ReadCommand(Kind(c), Encoded(c, h.swapped), h, p.slice, at, st) == Told(c, p, at, st)
  {
    hide M.ReadSegment, M.ReadEncryption, M.ReadSignature, M.ReadLinkeditData, M.ReadBuild, M.ReadMinimum, M.StringOk,
         M.OptionsOk, M.FilesetOk, M.LeastSize, Told, Encoded, Structured;
    match c
    case Segment(_, long, _, _, _, _, _, _) =>
      if long { LongSegmentReads(c, h, p, at, st); } else { ShortSegmentReads(c, h, p, at, st); }
    case Encryption(_, _, _, _, _) => EncryptionReads(c, h, p, at, st);
    case Signature(_, _, _) => SignatureReads(c, h, p, at, st);
    case LinkeditData(_, _, _, _) => LinkeditDataReads(c, h, p, at, st);
    case Build(_, _, _, _, _) => BuildReads(c, h, p, at, st);
    case Minimum(_, _, _) => MinimumReads(c, h, p, at, st);
    case Text(_, _, _) => TextReads(c, h, p, at, st);
    case Options(_, _) => OptionsReads(c, h, p, at, st);
    case Fileset(_, _, _) => FilesetReads(c, h, p, at, st);
    case Sized(_, _) => SizedReads(c, h, p, at, st);
  }

  // ----- A table of commands ------------------------------------------------------------------------

  ghost predicate AllSuited(cs: seq<LoadCommand>) {
    forall i :: 0 <= i < |cs| ==> Suited(cs[i])
  }

  ghost function Table(cs: seq<LoadCommand>, swap: bool): Bytes
    requires AllSuited(cs)
  {
    if cs == [] then [] else Encoded(cs[0], swap) + Table(cs[1..], swap)
  }

  /** No command is longer than 64 KiB or breaks the alignment of its slice. */
  predicate Measured(c: LoadCommand, p: Place) {
    |c.base| <= 0x1_0000 && |c.base| % (if p.wide then 8 else 4) == 0
  }

  /** What all commands say, the first one standing at `at` of the slice. */
  function ToldAll(cs: seq<LoadCommand>, p: Place, at: nat, st: M.Commands): Option<M.Commands> {
    if cs == [] then Some(st)
    else if !Measured(cs[0], p) then None
    else
      match Told(cs[0], p, at, st)
      case None => None
      case Some(next) => ToldAll(cs[1..], p, at + |cs[0].base|, next)
  }

  lemma SameNativeIn(s: Bytes, t: Bytes, from: nat, at: nat, swap: bool)
    requires from + |t| <= |s| && s[from..from + |t|] == t && at + 4 <= |t|
    ensures M.Native(s, from + at, swap) == M.Native(t, at, swap)
  {
    var p := s[from..from + |t|];
    assert p[at] == t[at] && p[at + 1] == t[at + 1] && p[at + 2] == t[at + 2] && p[at + 3] == t[at + 3];
  }

  lemma NextReads(before: Bytes, c: LoadCommand, rest: Bytes, h: M.Header, p: Place, st: M.Commands)
    requires Suited(c) && Placed(h, p)
    ensures M.ReadNext(before + Encoded(c, h.swapped) + rest, h, p.slice, |before|, st) ==
            if !Measured(c, p) then None
            else
              match Told(c, p, h.headerSize + |before|, st)
              case None => None
              case Some(next) => Some((|before| + |c.base|, next))
  {
    hide M.Native, M.ReadCommand, Told, Encoded, Suited, Kind, Fields;
    var b, at := Encoded(c, h.swapped), |before|;
    var table := before + b + rest;
    assert table[at..at + |b|] == b;
    SizeKnown(c);
    FieldReads(c, h.swapped, Field(0, Kind(c)));
    FieldReads(c, h.swapped, Field(4, |c.base|));
    SameNativeIn(table, b, at, 0, h.swapped);
    SameNativeIn(table, b, at, 4, h.swapped);
    CommandReads(c, h, p, h.headerSize + at, st);
  }

  lemma SizeKnown(c: LoadCommand)
    requires Suited(c)
    ensures 8 <= |c.base| < WORD
  {
  }

  /** A table is read command by command, and only to its end. */
  lemma {:induction false} TableReads(before: Bytes, cs: seq<LoadCommand>, h: M.Header, p: Place, count: nat,
      st: M.Commands)
    requires AllSuited(cs) && Placed(h, p)
    ensures M.Walk(before + Table(cs, h.swapped), h, p.slice, count, |before|, st) ==
            if count == |cs| then ToldAll(cs, p, h.headerSize + |before|, st) else None
    decreases cs
  {
    hide M.ReadNext, Told, Encoded, Suited, Measured;
    var table := before + Table(cs, h.swapped);
    if cs == [] {
      assert table == before;
      if count > 0 { NothingNext(table, h, p.slice, st); }
    } else {
      var c, rest := cs[0], Table(cs[1..], h.swapped);
      var b := Encoded(c, h.swapped);
      SizeKnown(c);
      assert table == before + b + rest && table == (before + b) + rest;
      if count > 0 {
        NextReads(before, c, rest, h, p, st);
        var next := Told(c, p, h.headerSize + |before|, st);
        if Measured(c, p) && next.Some? { TableReads(before + b, cs[1..], h, p, count - 1, next.value); }
      }
    }
  }

  lemma NothingNext(table: Bytes, h: M.Header, slice: nat, st: M.Commands)
    ensures M.ReadNext(table, h, slice, |table|, st) == None
  {
  }

  // ----- A whole slice ---------------------------------------------------------------------------------

  /** A slice to be written; `base` supplies the header bytes nobody reads, `rest` what lies
      behind the load commands. */
  datatype Slice = Slice(
    base: Bytes,
    wide: bool,
    swap: bool,
    cpuType: nat,
    cpuSubtype: nat,
    fileType: nat,
    count: nat,
    commands: seq<LoadCommand>,
    rest: Bytes)

  function HeaderFields(v: Slice, tableSize: nat): seq<Field> {
    [Field(0, if v.wide then 0xfeedfacf else 0xfeedface), Field(4, v.cpuType), Field(8, v.cpuSubtype),
     Field(12, v.fileType), Field(16, v.count), Field(20, tableSize)]
  }

  ghost predicate Writable(v: Slice) {
    && |v.base| == (if v.wide then 32 else 28)
    && v.cpuType < WORD && v.cpuSubtype < WORD && v.fileType < WORD && v.count < WORD
    && AllSuited(v.commands) && |Table(v.commands, v.swap)| < WORD
  }

  lemma HeaderFieldsFit(v: Slice, tableSize: nat)
    requires Writable(v) && tableSize < WORD
    ensures FieldsFit(HeaderFields(v, tableSize), |v.base|)
  {
    hide Table, FieldsFit, AllSuited;
    AscendingFit(HeaderFields(v, tableSize), 0, |v.base|);
  }

  ghost function Header(v: Slice): (b: Bytes)
    requires Writable(v)
    ensures |b| == |v.base|
  {
    HeaderFieldsFit(v, |Table(v.commands, v.swap)|);
    PutNatives(v.base, HeaderFields(v, |Table(v.commands, v.swap)|), v.swap)
  }

  ghost function Written(v: Slice): Bytes
    requires Writable(v)
  {
    Header(v) + Table(v.commands, v.swap) + v.rest
  }

  /** 64-bit headers go with the CPU types whose bit 24 or 25 is set. */
  predicate LongCpu(cpuType: nat) {
    cpuType / 0x100_0000 % 2 == 1 || cpuType / 0x200_0000 % 2 == 1
  }

  ghost predicate HeaderFits(v: Slice)
    requires Writable(v)
  {
    var size := |Table(v.commands, v.swap)|;
    && LongCpu(v.cpuType) == v.wide
    && 1 <= v.count <= 1000 && 8 * v.count <= size <= 0x80_0000 && size % (if v.wide then 8 else 4) == 0
  }

  ghost function Described(v: Slice): M.Header
    requires Writable(v)
  {
    M.Header(v.cpuType, v.cpuSubtype, v.fileType, !v.wide, v.swap, |v.base|, v.count, |Table(v.commands, v.swap)|)
  }

  predicate Within(inner: M.Range, outer: M.Range) {
    outer.offset <= inner.offset && inner.offset + inner.size <= outer.offset + outer.size
  }

  predicate Apart(a: M.Range, b: M.Range) {
    a.size == 0 || b.size == 0 || a.offset + a.size <= b.offset || b.offset + b.size <= a.offset
  }

  /** Linkedit data and the signature lie in `__LINKEDIT`; nothing encrypted is in the signature. */
  ghost predicate Arranged(c: M.Commands) {
    && (c.linkedit.Some? ==> forall i :: 0 <= i < |c.ranges| ==> Within(c.ranges[i], c.linkedit.value.file))
    && (c.signature.Some? ==> c.linkedit.Some? && Within(c.signature.value, c.linkedit.value.file))
    && (c.signature.Some? && c.encryption.Some? ==>
          c.encryption.value.identifier == 0 || Apart(c.encryption.value.range, c.signature.value))
  }

  ghost function Expected(v: Slice): Option<M.Reading>
    requires Writable(v)
  {
    var size := |Table(v.commands, v.swap)|;
    var p := Place(v.wide, |v.base| + size, |v.base| + size + |v.rest|);
    if !HeaderFits(v) || v.count != |v.commands| then None
    else
      match ToldAll(v.commands, p, |v.base|, M.NO_COMMANDS)
      case None => None
      case Some(c) => if Arranged(c) then Some(M.Reading(Described(v), c)) else None
  }

  lemma HeaderWord(v: Slice, f: Field)
    requires Writable(v) && f in HeaderFields(v, |Table(v.commands, v.swap)|)
    ensures f.at + 4 <= |v.base| && M.Native(Written(v), f.at, v.swap) == f.value
  {
    hide PutNatives, M.Native, Table, FieldsFit, AllSuited, HeaderFields;
    HeaderFieldsFit(v, |Table(v.commands, v.swap)|);
    NativesRead(v.base, HeaderFields(v, |Table(v.commands, v.swap)|), v.swap, f);
    var h, s := Header(v), Written(v);
    assert s[0..0 + |h|] == h;
    SameNativeIn(s, h, 0, f.at, v.swap);
  }

  /** In the other byte order the magic is another word. */
  lemma OtherMagic(s: Bytes, swap: bool)
    requires 4 <= |s| && M.Native(s, 0, swap) in {0xfeedface, 0xfeedfacf}
    ensures M.Native(s, 0, !swap) !in {0xfeedface, 0xfeedfacf}
  {
    var a, b, c, d := s[0] as nat, s[1] as nat, s[2] as nat, s[3] as nat;
    if swap {
      Digits(a, b, c, d, 0xfe, 0xed, 0xfa, Word(s, 0) % 256);
    } else {
      Digits(d, c, b, a, 0xfe, 0xed, 0xfa, M.Native(s, 0, false) % 256);
    }
  }

  lemma HeaderReads(v: Slice)
    requires Writable(v)
    ensures M.ReadHeader(Written(v)) == if HeaderFits(v) then Some(Described(v)) else None
  {
    hide M.Native, Table, Header;
    var size := |Table(v.commands, v.swap)|;
    HeaderWord(v, Field(0, if v.wide then 0xfeedfacf else 0xfeedface));
    HeaderWord(v, Field(4, v.cpuType));
    HeaderWord(v, Field(8, v.cpuSubtype));
    HeaderWord(v, Field(12, v.fileType));
    HeaderWord(v, Field(16, v.count));
    HeaderWord(v, Field(20, size));
    OtherMagic(Written(v), v.swap);
    LongCpuIff(v.cpuType);
  }

  lemma LongCpuIff(cpuType: nat)
    ensures M.Wide(cpuType) <==> LongCpu(cpuType)
  {
    var high := cpuType / 0x100_0000;
    assert cpuType / 0x200_0000 == high / 2;
  }

  lemma ArrangedIff(c: M.Commands)
    ensures M.RangesOk(c) <==> Arranged(c)
  {
    assert forall i :: 0 <= i < |c.ranges| && c.linkedit.Some? ==>
      (M.RangeContains(c.linkedit.value.file, c.ranges[i]) <==> Within(c.ranges[i], c.linkedit.value.file));
  }

  /** The reader finds exactly what was laid out, and refuses exactly what breaks a rule. */
  lemma WrittenReads(v: Slice)
    requires Writable(v)
    ensures M.Read(Written(v)) == Expected(v)
  {
    hide M.ReadHeader, M.Walk, M.RangesOk, Arranged, HeaderFits, ToldAll, Header, Table;
    HeaderReads(v);
    if HeaderFits(v) {
      var s, h, table := Written(v), Described(v), Table(v.commands, v.swap);
      var p := Place(v.wide, |v.base| + |table|, |s|);
      assert M.Table(s, h) == table && [] + table == table;
      TableReads([], v.commands, h, p, v.count, M.NO_COMMANDS);
      var told := ToldAll(v.commands, p, |v.base|, M.NO_COMMANDS);
      if told.Some? { ArrangedIff(told.value); }
    }
  }
}
