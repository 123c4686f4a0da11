/**
 Reading one Mach-O slice: its header, its load commands, and what they say about
 the code signature, the encrypted range and the `__LINKEDIT` segment.
 */
module MachOSlice {
  import opened Wrappers
  import opened BigEndian

  const MAX_COMMANDS: nat := 1000
  const MAX_COMMAND_BYTES: nat := 8 * 1024 * 1024
  const MAX_COMMAND_SIZE: nat := 64 * 1024
  const DOUBLE: nat := 0x1_0000_0000_0000_0000

  // ----- Words in either byte order ---------------------------------------------------------

  /** A word in the order of the (little-endian) host, or in the other one. */
  function Native(s: Bytes, at: nat, swap: bool): (w: nat)
    requires at + 4 <= |s|
    ensures w < WORD
  {
    if swap then Word(s, at)
    else ((s[at + 3] as nat * 256 + s[at + 2] as nat) * 256 + s[at + 1] as nat) * 256 + s[at] as nat
  }

  function Native64(s: Bytes, at: nat, swap: bool): (w: nat)
    requires at + 8 <= |s|
  {
    var first, second := Native(s, at, swap), Native(s, at + 4, swap);
    if swap then first * WORD + second else second * WORD + first
  }

  predicate RangeFits(offset: nat, size: nat, container: nat) {
    offset <= container && size <= container - offset
  }

  predicate RangeContains(outer: Range, inner: Range) {
    inner.offset >= outer.offset && RangeFits(inner.offset - outer.offset, inner.size, outer.size)
  }

  predicate RangesOverlap(a: Range, b: Range) {
    a.size != 0 && b.size != 0 && a.offset < b.offset + b.size && b.offset < a.offset + a.size
  }

  // ----- What is read -------------------------------------------------------------------------

  datatype Range = Range(offset: nat, size: nat)
  datatype Linkedit = Linkedit(command: nat, vmAddress: nat, vmSize: nat, file: Range)
  datatype Encryption = Encryption(range: Range, identifier: nat)
  datatype Version = Version(command: nat, platform: nat, minOS: nat, sdk: nat)

  datatype Header = Header(
    cpuType: nat, cpuSubtype: nat, fileType: nat, is32Bit: bool, swapped: bool, headerSize: nat,
    commandCount: nat, commandBytes: nat)

  /** What the load commands say, as far as they have been read. */
  datatype Commands = Commands(
    linkedit: Option<Linkedit>,
    encryption: Option<Encryption>,
    signature: Option<Range>,
    build: Option<Version>,
    minimumSDK: Option<nat>,
    ranges: seq<Range>)

  datatype Reading = Reading(header: Header, commands: Commands)

  predicate Encrypted(c: Commands) {
    c.encryption.Some? && c.encryption.value.identifier != 0
  }

  function CommandsEnd(h: Header): nat {
    h.headerSize + h.commandBytes
  }

  // ----- The header ------------------------------------------------------------------------------

  const MAGIC: nat := 0xfeedface
  const MAGIC_64: nat := 0xfeedfacf

  /** A CPU type of an ABI with 64-bit headers: bit 24 or bit 25 is set. */
  predicate Wide(cpuType: nat) {
    cpuType / 0x100_0000 % 4 != 0
  }

  function ReadHeader(s: Bytes): (r: Option<Header>)
    ensures r.Some? ==> 28 <= CommandsEnd(r.value) <= |s| && r.value.cpuType < WORD && r.value.cpuSubtype < WORD
  {
    if |s| < 4 then None
    else
      var little, big := Native(s, 0, false), Native(s, 0, true);
      if little != MAGIC && big != MAGIC && little != MAGIC_64 && big != MAGIC_64 then None
      else
        var is32Bit, swap := little == MAGIC || big == MAGIC, big == MAGIC || big == MAGIC_64;
        var size, alignment := if is32Bit then 28 else 32, if is32Bit then 4 else 8;
        if |s| < size then None
        else
          var h := Header(Native(s, 4, swap), Native(s, 8, swap), Native(s, 12, swap), is32Bit, swap, size,
                          Native(s, 16, swap), Native(s, 20, swap));
          if || Wide(h.cpuType) == is32Bit
             || h.commandCount == 0 || h.commandCount > MAX_COMMANDS || h.commandBytes > MAX_COMMAND_BYTES
             || h.commandCount > h.commandBytes / 8 || h.commandBytes % alignment != 0
             || !RangeFits(size, h.commandBytes, |s|)
          then None else Some(h)
  }

  // ----- Strings in commands ------------------------------------------------------------------------

  predicate HasNul(c: Bytes, from: nat) {
    exists i :: from <= i < |c| && c[i] == 0
  }

  predicate HasString(c: Bytes, offset: nat, least: nat) {
    least <= offset < |c| && HasNul(c, offset)
  }

  /** A command of at least `least` bytes whose word at 8 says where its string is. */
  predicate StringOk(c: Bytes, swap: bool, least: nat)
    requires least >= 12
  {
    |c| >= least && HasString(c, Native(c, 8, swap), least)
  }

  /** `count` strings one behind another from `from` on. */
  predicate StringsOk(c: Bytes, from: nat, count: nat)
    decreases |c| - from
  {
    count == 0 || (from < |c| && StringsOk(c, from + 1, if c[from] == 0 then count - 1 else count))
  }

  // ----- Load commands ---------------------------------------------------------------------------------

  const LINKEDIT_NAME: Bytes := [0x5f, 0x5f, 0x4c, 0x49, 0x4e, 0x4b, 0x45, 0x44, 0x49, 0x54, 0]

  /** A segment command; a second `__LINKEDIT` is refused. */
  function ReadSegment(c: Bytes, wide: bool, h: Header, sliceSize: nat, at: nat, st: Commands): Option<Commands> {
    var size, section := if wide then 72 else 56, if wide then 80 else 68;
    if h.is32Bit == wide || |c| < size then None
    else
      var sections := Native(c, if wide then 64 else 48, h.swapped);
      var vmAddress := if wide then Native64(c, 24, h.swapped) else Native(c, 24, h.swapped);
      var vmSize := if wide then Native64(c, 32, h.swapped) else Native(c, 28, h.swapped);
      var file := if wide then Range(Native64(c, 40, h.swapped), Native64(c, 48, h.swapped))
                  else Range(Native(c, 32, h.swapped), Native(c, 36, h.swapped));
      if || size + sections * section != |c|
         || !RangeFits(file.offset, file.size, sliceSize) || vmAddress + vmSize >= DOUBLE then None
      else if c[8..19] != LINKEDIT_NAME then Some(st)
      else if st.linkedit.Some? || file.size > vmSize then None
      else Some(st.(linkedit := Some(Linkedit(at, vmAddress, vmSize, file))))
  }

  function ReadEncryption(c: Bytes, wide: bool, h: Header, sliceSize: nat, st: Commands): Option<Commands> {
    if wide == h.is32Bit || |c| < (if wide then 24 else 20) || st.encryption.Some? then None
    else
      var range := Range(Native(c, 8, h.swapped), Native(c, 12, h.swapped));
      if range.size != 0 && (range.offset < CommandsEnd(h) || !RangeFits(range.offset, range.size, sliceSize)) then None
      else Some(st.(encryption := Some(Encryption(range, Native(c, 16, h.swapped)))))
  }

  function ReadSignature(c: Bytes, h: Header, sliceSize: nat, st: Commands): Option<Commands> {
    if |c| != 16 || st.signature.Some? then None
    else
      var range := Range(Native(c, 8, h.swapped), Native(c, 12, h.swapped));
      if range.size == 0 || range.offset < CommandsEnd(h) || !RangeFits(range.offset, range.size, sliceSize) then None
      else Some(st.(signature := Some(range)))
  }

  function ReadLinkeditData(c: Bytes, h: Header, sliceSize: nat, st: Commands): Option<Commands> {
    if |c| < 16 then None
    else
      var range := Range(Native(c, 8, h.swapped), Native(c, 12, h.swapped));
      if range.size == 0 then (if range.offset == 0 || range.offset <= sliceSize then Some(st) else None)
      else if || range.offset < CommandsEnd(h) || !RangeFits(range.offset, range.size, sliceSize)
              || |st.ranges| >= MAX_COMMANDS then None
      else Some(st.(ranges := st.ranges + [range]))
  }

  function ReadBuild(c: Bytes, h: Header, at: nat, st: Commands): Option<Commands> {
    if |c| < 24 || st.build.Some? || Native(c, 20, h.swapped) > (|c| - 24) / 8 then None
    else
      var version := Version(at, Native(c, 8, h.swapped), Native(c, 12, h.swapped), Native(c, 16, h.swapped));
      Some(st.(build := Some(version)))
  }

  function ReadMinimum(c: Bytes, isPhone: bool, h: Header, st: Commands): Option<Commands> {
    if |c| < 16 then None
    else if !isPhone then Some(st)
    else if st.minimumSDK.Some? then None
    else Some(st.(minimumSDK := Some(Native(c, 12, h.swapped))))
  }

  predicate OptionsOk(c: Bytes, swap: bool) {
    |c| >= 12 && StringsOk(c, 12, Native(c, 8, swap))
  }

  predicate FilesetOk(c: Bytes, h: Header, sliceSize: nat) {
    |c| >= 32 && CommandsEnd(h) <= Native64(c, 16, h.swapped) < sliceSize && HasString(c, Native(c, 24, h.swapped), 32)
  }

  /** The size of the structure of a command of which nothing else is checked. */
  function LeastSize(kind: nat): nat {
    match kind
    case 0x02 => 24
    case 0x03 => 16
    case 0x04 => 8
    case 0x05 => 8
    case 0x0b => 80
    case 0x11 => 40
    case 0x16 => 16
    case 0x17 => 12
    case 0x1a => 72
    case 0x1b => 24
    case 0x22 => 48
    case 0x80000022 => 48
    case 0x80000028 => 24
    case 0x2a => 16
    case 0x31 => 40
    case _ => 0
  }

  predicate IsDylib(kind: nat) {
    kind in {0x0c, 0x0d, 0x80000018, 0x8000001f, 0x20, 0x80000023}
  }

  /** Paths, dynamic linkers, sub-frameworks and target triples. */
  predicate IsNamed(kind: nat) {
    kind in {0x8000001c, 0x0e, 0x0f, 0x27, 0x12, 0x13, 0x14, 0x15, 0x39}
  }

  predicate IsLinkeditData(kind: nat) {
    kind in {0x1e, 0x26, 0x29, 0x2b, 0x2e, 0x80000033, 0x80000034, 0x36, 0x37, 0x38}
  }

  predicate IsMinimum(kind: nat) {
    kind in {0x24, 0x25, 0x2f, 0x30}
  }

  function If(ok: bool, st: Commands): Option<Commands> {
    if ok then Some(st) else None
  }

  /** One command, of type `kind`, at `at` in the slice; commands not known here pass. */
  function ReadCommand(kind: nat, c: Bytes, h: Header, sliceSize: nat, at: nat, st: Commands): Option<Commands> {
    if kind == 0x01 || kind == 0x19 then ReadSegment(c, kind == 0x19, h, sliceSize, at, st)
    else if kind == 0x21 || kind == 0x2c then ReadEncryption(c, kind == 0x2c, h, sliceSize, st)
    else if kind == 0x1d then ReadSignature(c, h, sliceSize, st)
    else if IsDylib(kind) then If(StringOk(c, h.swapped, 24), st)
    else if IsNamed(kind) then If(StringOk(c, h.swapped, 12), st)
    else if IsMinimum(kind) then ReadMinimum(c, kind == 0x25, h, st)
    else if kind == 0x32 then ReadBuild(c, h, at, st)
    else if kind == 0x2d then If(OptionsOk(c, h.swapped), st)
    else if IsLinkeditData(kind) then ReadLinkeditData(c, h, sliceSize, st)
    else if kind == 0x80000035 then If(FilesetOk(c, h, sliceSize), st)
    else If(|c| >= LeastSize(kind), st)
  }

  /** The command at `at` of the table, and where the next one is. */
  function ReadNext(table: Bytes, h: Header, sliceSize: nat, at: nat, st: Commands): (r: Option<(nat, Commands)>)
    ensures r.Some? ==> at < r.value.0 <= |table|
  {
    if !RangeFits(at, 8, |table|) then None
    else
      var kind, size := Native(table, at, h.swapped), Native(table, at + 4, h.swapped);
      if || size < 8 || size > MAX_COMMAND_SIZE || size % (if h.is32Bit then 4 else 8) != 0
         || !RangeFits(at, size, |table|) then None
      else
        match ReadCommand(kind, table[at..at + size], h, sliceSize, h.headerSize + at, st)
        case None => None
        case Some(next) => Some((at + size, next))
  }

  /** `count` commands from `at` on, which must end with the table. */
  function Walk(table: Bytes, h: Header, sliceSize: nat, count: nat, at: nat, st: Commands): Option<Commands>
    decreases count
  {
    if count == 0 then (if at == |table| then Some(st) else None)
    else
      match ReadNext(table, h, sliceSize, at, st)
      case None => None
      case Some(next) => Walk(table, h, sliceSize, count - 1, next.0, next.1)
  }

  const NO_COMMANDS := Commands(None, None, None, None, None, [])

  /** The ranges that must lie in `__LINKEDIT`, or must not meet. */
  predicate RangesOk(c: Commands) {
    && (c.linkedit.Some? ==> forall i :: 0 <= i < |c.ranges| ==> RangeContains(c.linkedit.value.file, c.ranges[i]))
    && (c.signature.Some? ==> c.linkedit.Some? && RangeContains(c.linkedit.value.file, c.signature.value))
    && (Encrypted(c) && c.signature.Some? ==> !RangesOverlap(c.encryption.value.range, c.signature.value))
  }

  function Table(s: Bytes, h: Header): Bytes
    requires CommandsEnd(h) <= |s|
  {
    s[h.headerSize..CommandsEnd(h)]
  }

  function Read(s: Bytes): Option<Reading> {
    match ReadHeader(s)
    case None => None
    case Some(h) =>
      match Walk(Table(s, h), h, |s|, h.commandCount, 0, NO_COMMANDS)
      case None => None
      case Some(c) => if RangesOk(c) then Some(Reading(h, c)) else None
  }

  // ----- What a reading depends on, and what it promises --------------------------------------------------

  lemma SameNative(s: Bytes, t: Bytes, n: nat, at: nat)
    requires at + 4 <= n <= |s| && n <= |t| && s[..n] == t[..n]
    ensures Native(s, at, false) == Native(t, at, false) && Native(s, at, true) == Native(t, at, true)
  {
    assert s[..n][at] == t[..n][at] && s[..n][at + 1] == t[..n][at + 1];
    assert s[..n][at + 2] == t[..n][at + 2] && s[..n][at + 3] == t[..n][at + 3];
  }

  lemma SameHeader(s: Bytes, t: Bytes)
    requires ReadHeader(s).Some? && |t| == |s|
    requires s[..CommandsEnd(ReadHeader(s).value)] == t[..CommandsEnd(ReadHeader(s).value)]
    ensures ReadHeader(t) == ReadHeader(s)
  {
    hide Native;
    var n := CommandsEnd(ReadHeader(s).value);
    SameNative(s, t, n, 0);
    SameNative(s, t, n, 4);
    SameNative(s, t, n, 8);
    SameNative(s, t, n, 12);
    SameNative(s, t, n, 16);
    SameNative(s, t, n, 20);
  }

  /** A slice reads the same whatever lies behind its load commands. */
  lemma ReadsTheSame(s: Bytes, t: Bytes)
    requires Read(s).Some? && |t| == |s|
    requires s[..CommandsEnd(Read(s).value.header)] == t[..CommandsEnd(Read(s).value.header)]
    ensures Read(t) == Read(s)
  {
    hide ReadHeader, Walk, RangesOk;
    SameHeader(s, t);
    var h := ReadHeader(s).value;
    assert Table(s, h) == s[..CommandsEnd(h)][h.headerSize..] && Table(t, h) == t[..CommandsEnd(h)][h.headerSize..];
  }

  /** The signature, if any, lies behind the load commands and inside the slice. */
  predicate SignatureBehind(h: Header, sliceSize: nat, st: Commands) {
    st.signature.Some? ==>
      var range := st.signature.value;
      range.size > 0 && CommandsEnd(h) <= range.offset && RangeFits(range.offset, range.size, sliceSize)
  }

  lemma CommandKeepsSignature(kind: nat, c: Bytes, h: Header, sliceSize: nat, at: nat, st: Commands)
    requires SignatureBehind(h, sliceSize, st)
    ensures var r := ReadCommand(kind, c, h, sliceSize, at, st); r.Some? ==> SignatureBehind(h, sliceSize, r.value)
  {
    hide Native, Native64, StringOk, OptionsOk, FilesetOk;
  }

  lemma {:induction false} WalkKeepsSignature(table: Bytes, h: Header, sliceSize: nat, count: nat, at: nat,
      st: Commands)
    requires SignatureBehind(h, sliceSize, st)
    ensures var r := Walk(table, h, sliceSize, count, at, st); r.Some? ==> SignatureBehind(h, sliceSize, r.value)
    decreases count
  {
    hide ReadCommand, SignatureBehind, Native;
    if count > 0 {
      var next := ReadNext(table, h, sliceSize, at, st);
      if next.Some? {
        var size := next.value.0 - at;
        CommandKeepsSignature(Native(table, at, h.swapped), table[at..at + size], h, sliceSize, h.headerSize + at, st);
        WalkKeepsSignature(table, h, sliceSize, count - 1, next.value.0, next.value.1);
      }
    }
  }

  /** What is read is inside the slice, the signature behind the load commands and apart
      from the encrypted range. */
  lemma ReadingIsSound(s: Bytes)
    requires Read(s).Some?
    ensures var r := Read(s).value;
      && 28 <= CommandsEnd(r.header) <= |s| && r.header.cpuType < WORD && r.header.cpuSubtype < WORD
      && SignatureBehind(r.header, |s|, r.commands)
      && (Encrypted(r.commands) && r.commands.signature.Some? ==>
            !RangesOverlap(r.commands.encryption.value.range, r.commands.signature.value))
  {
    hide ReadHeader, Walk;
    var h := ReadHeader(s).value;
    WalkKeepsSignature(Table(s, h), h, |s|, h.commandCount, 0, NO_COMMANDS);
  }

  /** So replacing what lies in the signature's allocation leaves the reading alone. */
  lemma ResignedReadsTheSame(s: Bytes, signature: Bytes)
    requires Read(s).Some? && Read(s).value.commands.signature.Some?
    requires |signature| == Read(s).value.commands.signature.value.size
    ensures var at := Read(s).value.commands.signature.value.offset;
            at + |signature| <= |s| && Read(Put(s, at, signature)) == Read(s)
  {
    hide Read, Put;
    ReadingIsSound(s);
    var h, at := Read(s).value.header, Read(s).value.commands.signature.value.offset;
    var t := Put(s, at, signature);
    PutKeeps(s, at, signature, 0, CommandsEnd(h));
    assert s[..CommandsEnd(h)] == s[0..CommandsEnd(h)] && t[..CommandsEnd(h)] == t[0..CommandsEnd(h)];
    ReadsTheSame(s, t);
  }

  /** The loop over the load commands. */
  method ParseSlice(s: Bytes) returns (r: Option<Reading>)
    ensures r == Read(s)
  {
    hide ReadHeader, ReadNext, RangesOk;
    var header := ReadHeader(s);
    if header.None? { return None; }
    var h := header.value;
    var table, c := Table(s, h), NO_COMMANDS;
    var at: nat := 0;
    for index := 0 to h.commandCount
      invariant at <= |table|
      invariant Walk(table, h, |s|, h.commandCount, 0, NO_COMMANDS)
              == Walk(table, h, |s|, h.commandCount - index, at, c)
    {
      var next := ReadNext(table, h, |s|, at, c);
      if next.None? { return None; }
      at, c := next.value.0, next.value.1;
    }
    if at != |table| { return None; }
    if !RangesOk(c) { return None; }
    return Some(Reading(h, c));
  }

  // ----- An example ------------------------------------------------------------------------------------------

  /** The header of an ARM executable with one load command of eight bytes. */
  const SMALL_HEADER: Bytes :=
    [0xce, 0xfa, 0xed, 0xfe, 12, 0, 0, 0, 9, 0, 0, 0, 2, 0, 0, 0, 1, 0, 0, 0, 8, 0, 0, 0, 0, 0, 0, 0]
  /** A command of a type not known here. */
  const SMALL_TABLE: Bytes := [0x7f, 0, 0, 0, 8, 0, 0, 0]
  const SMALL_READING := Header(12, 9, 2, true, false, 28, 1, 8)

  lemma SmallHeaderReads()
    ensures ReadHeader(SMALL_HEADER + SMALL_TABLE) == Some(SMALL_READING)
  {
    var s := SMALL_HEADER + SMALL_TABLE;
    assert Native(s, 0, false) == MAGIC && Native(s, 4, false) == 12 && Native(s, 8, false) == 9;
    assert Native(s, 12, false) == 2 && Native(s, 16, false) == 1 && Native(s, 20, false) == 8;
    assert Native(s, 0, true) == 0xcefaedfe;
  }

  lemma SmallTableReads()
    ensures Walk(SMALL_TABLE, SMALL_READING, 36, 1, 0, NO_COMMANDS) == Some(NO_COMMANDS)
  {
    var h := SMALL_READING;
    assert Native(SMALL_TABLE, 0, false) == 0x7f && Native(SMALL_TABLE, 4, false) == 8;
    assert ReadCommand(0x7f, SMALL_TABLE[0..8], h, 36, 28, NO_COMMANDS) == Some(NO_COMMANDS);
    assert ReadNext(SMALL_TABLE, h, 36, 0, NO_COMMANDS) == Some((8, NO_COMMANDS));
    assert Walk(SMALL_TABLE, h, 36, 0, 8, NO_COMMANDS) == Some(NO_COMMANDS);
  }

  /** Some slices are read. */
  lemma SmallSliceReads()
    ensures Read(SMALL_HEADER + SMALL_TABLE) == Some(Reading(SMALL_READING, NO_COMMANDS))
  {
    hide ReadHeader, Walk, RangesOk;
    SmallHeaderReads();
    SmallTableReads();
    assert Table(SMALL_HEADER + SMALL_TABLE, SMALL_READING) == SMALL_TABLE;
    NoRangesOk();
  }

  lemma NoRangesOk()
    ensures RangesOk(NO_COMMANDS)
  {
  }

  /** The header of an arm64 executable with three load commands of 112 bytes in all. */
  const SHIM_HEADER: Bytes :=
    [0xcf, 0xfa, 0xed, 0xfe, 12, 0, 0, 1, 0, 0, 0, 0, 2, 0, 0, 0, 3, 0, 0, 0, 112, 0, 0, 0, 0, 0, 0, 0, 0, 0, 0, 0]
  /** Its `__LINKEDIT` segment, the byte behind the commands. */
  const SHIM_SEGMENT: Bytes :=
    [0x19, 0, 0, 0, 72, 0, 0, 0] + LINKEDIT_NAME + [0, 0, 0, 0, 0] + [0, 0, 0, 0, 0, 0, 0, 0] + [1, 0, 0, 0, 0, 0, 0, 0]
    + [144, 0, 0, 0, 0, 0, 0, 0] + [1, 0, 0, 0, 0, 0, 0, 0] + [0, 0, 0, 0, 0, 0, 0, 0] + [0, 0, 0, 0, 0, 0, 0, 0]
  /** Its signature, the same byte. */
  const SHIM_SIGNATURE: Bytes := [0x1d, 0, 0, 0, 16, 0, 0, 0, 144, 0, 0, 0, 1, 0, 0, 0]
  const SHIM_BUILD: Bytes := [0x32, 0, 0, 0, 24, 0, 0, 0, 2, 0, 0, 0, 0, 0, 11, 0, 0, 0, 11, 0, 0, 0, 0, 0]

  const SHIM_READING := Header(0x100000c, 0, 2, false, false, 32, 3, 112)
  const SHIM_COMMANDS := Commands(
    Some(Linkedit(32, 0, 1, Range(144, 1))), None, Some(Range(144, 1)), Some(Version(120, 2, 0xb0000, 0xb0000)),
    None, [])

  function SmallShim(): Bytes {
    SHIM_HEADER + (SHIM_SEGMENT + SHIM_SIGNATURE + SHIM_BUILD) + [0]
  }

  lemma ShimHeaderReads()
    ensures |SmallShim()| == 145 && ReadHeader(SmallShim()) == Some(SHIM_READING)
  {
    hide Native;
    var s := SmallShim();
    assert s[..32] == SHIM_HEADER;
    SameNative(s, SHIM_HEADER, 32, 0);
    SameNative(s, SHIM_HEADER, 32, 4);
    SameNative(s, SHIM_HEADER, 32, 8);
    SameNative(s, SHIM_HEADER, 32, 12);
    SameNative(s, SHIM_HEADER, 32, 16);
    SameNative(s, SHIM_HEADER, 32, 20);
    ShimWords();
  }

  lemma ShimWords()
    ensures var s := SHIM_HEADER;
      && Native(s, 0, false) == MAGIC_64 && Native(s, 0, true) == 0xcffaedfe && Native(s, 4, false) == 0x100000c
      && Native(s, 8, false) == 0 && Native(s, 12, false) == 2
      && Native(s, 16, false) == 3 && Native(s, 20, false) == 112
  {
  }

  lemma ShimSegmentReads()
    ensures |SHIM_SEGMENT| == 72 && Native(SHIM_SEGMENT, 0, false) == 0x19 && Native(SHIM_SEGMENT, 4, false) == 72
    ensures ReadCommand(0x19, SHIM_SEGMENT, SHIM_READING, 145, 32, NO_COMMANDS)
            == Some(NO_COMMANDS.(linkedit := SHIM_COMMANDS.linkedit))
  {
    var c := SHIM_SEGMENT;
    assert c[8..19] == LINKEDIT_NAME;
    assert Native(c, 24, false) == 0 && Native(c, 28, false) == 0;
    assert Native(c, 32, false) == 1 && Native(c, 36, false) == 0;
    assert Native(c, 40, false) == 144 && Native(c, 44, false) == 0;
    assert Native(c, 48, false) == 1 && Native(c, 52, false) == 0 && Native(c, 64, false) == 0;
  }

  lemma ShimSignatureReads(st: Commands)
    requires st.signature.None?
    ensures Native(SHIM_SIGNATURE, 0, false) == 0x1d && Native(SHIM_SIGNATURE, 4, false) == 16
    ensures ReadCommand(0x1d, SHIM_SIGNATURE, SHIM_READING, 145, 104, st) == Some(st.(signature := Some(Range(144, 1))))
  {
    assert Native(SHIM_SIGNATURE, 8, false) == 144 && Native(SHIM_SIGNATURE, 12, false) == 1;
  }

  lemma ShimBuildReads(st: Commands)
    requires st.build.None?
    ensures Native(SHIM_BUILD, 0, false) == 0x32 && Native(SHIM_BUILD, 4, false) == 24
    ensures ReadCommand(0x32, SHIM_BUILD, SHIM_READING, 145, 120, st) == Some(st.(build := SHIM_COMMANDS.build))
  {
    var c := SHIM_BUILD;
    assert Native(c, 8, false) == 2 && Native(c, 12, false) == 0xb0000 && Native(c, 16, false) == 0xb0000;
    assert Native(c, 20, false) == 0;
  }

  predicate IsCommand(c: Bytes, kind: nat) {
    8 <= |c| <= MAX_COMMAND_SIZE && |c| % 8 == 0 && Native(c, 0, false) == kind && Native(c, 4, false) == |c|
  }

  /** A command in a table is read as it would be alone. */
  lemma ReadsNext(before: Bytes, c: Bytes, behind: Bytes, h: Header, sliceSize: nat, kind: nat, st: Commands,
      next: Commands)
    requires !h.is32Bit && !h.swapped && IsCommand(c, kind)
    requires ReadCommand(kind, c, h, sliceSize, h.headerSize + |before|, st) == Some(next)
    ensures ReadNext(before + c + behind, h, sliceSize, |before|, st) == Some((|before| + |c|, next))
  {
    hide Native, ReadCommand;
    var table, at := before + c + behind, |before|;
    assert table[at..at + |c|] == c;
    SameNativeAt(table, c, at, 0);
    SameNativeAt(table, c, at, 4);
  }

  lemma SameNativeAt(s: Bytes, t: Bytes, from: nat, at: nat)
    requires from + |t| <= |s| && s[from..from + |t|] == t && at + 4 <= |t|
    ensures Native(s, from + at, false) == Native(t, at, false)
  {
    var p := s[from..from + |t|];
    assert p[at] == t[at] && p[at + 1] == t[at + 1] && p[at + 2] == t[at + 2] && p[at + 3] == t[at + 3];
  }

  /** Three commands that can be read alone make a table. */
  lemma ThreeCommands(a: Bytes, b: Bytes, c: Bytes, h: Header, size: nat, kinds: (nat, nat, nat), one: Commands,
      two: Commands, three: Commands)
    requires !h.is32Bit && !h.swapped
    requires IsCommand(a, kinds.0)
    requires IsCommand(b, kinds.1)
    requires IsCommand(c, kinds.2)
    requires ReadCommand(kinds.0, a, h, size, h.headerSize, NO_COMMANDS) == Some(one)
    requires ReadCommand(kinds.1, b, h, size, h.headerSize + |a|, one) == Some(two)
    requires ReadCommand(kinds.2, c, h, size, h.headerSize + |a| + |b|, two) == Some(three)
    ensures Walk(a + b + c, h, size, 3, 0, NO_COMMANDS) == Some(three)
  {
    hide ReadCommand, Native, ReadNext, Walk;
    assert a + b + c == [] + a + (b + c) && a + b + c == (a + b) + c + [];
    ReadsNext([], a, b + c, h, size, kinds.0, NO_COMMANDS, one);
    ReadsNext(a, b, c, h, size, kinds.1, one, two);
    ReadsNext(a + b, c, [], h, size, kinds.2, two, three);
    ThreeSteps(a + b + c, h, size, |a|, one, |a| + |b|, two, three);
  }

  lemma ShimTableReads()
    ensures Walk(SHIM_SEGMENT + SHIM_SIGNATURE + SHIM_BUILD, SHIM_READING, 145, 3, 0, NO_COMMANDS)
            == Some(SHIM_COMMANDS)
  {
    hide ReadCommand, Native, Walk;
    var one := NO_COMMANDS.(linkedit := SHIM_COMMANDS.linkedit);
    var two := one.(signature := Some(Range(144, 1)));
    ShimSegmentReads();
    ShimSignatureReads(one);
    ShimBuildReads(two);
    var kinds := (0x19, 0x1d, 0x32);
    ThreeCommands(SHIM_SEGMENT, SHIM_SIGNATURE, SHIM_BUILD, SHIM_READING, 145, kinds, one, two, SHIM_COMMANDS);
  }

  lemma ThreeSteps(table: Bytes, h: Header, size: nat, p: nat, one: Commands, q: nat, two: Commands, three: Commands)
    requires ReadNext(table, h, size, 0, NO_COMMANDS) == Some((p, one))
    requires ReadNext(table, h, size, p, one) == Some((q, two))
    requires ReadNext(table, h, size, q, two) == Some((|table|, three))
    ensures Walk(table, h, size, 3, 0, NO_COMMANDS) == Some(three)
  {
    hide ReadNext;
    assert Walk(table, h, size, 1, q, two) == Some(three);
    assert Walk(table, h, size, 2, p, one) == Some(three);
  }

  lemma SmallShimReads()
    ensures Read(SmallShim()) == Some(Reading(SHIM_READING, SHIM_COMMANDS))
  {
    hide ReadHeader, Walk;
    ShimHeaderReads();
    ShimTableReads();
    assert Table(SmallShim(), SHIM_READING) == SHIM_SEGMENT + SHIM_SIGNATURE + SHIM_BUILD;
  }
}
