/**
 What the table of a FAT image means, from the writer's side: its entries are laid out field by
 field, in either byte order and either width, and the parser finds exactly what was laid out.
 */
module FatLayout {
  import opened Wrappers
  import opened BigEndian
  import opened SliceLayout
  import Bits
  import F = FatImage
  import M = MachOSlice

  datatype Entry = Entry(cpuType: nat, cpuSubtype: nat, offset: nat, size: nat, align: nat, reserved: nat)

  /** A file whose table is to be written over `base`; its slices lie in `base`. */
  datatype Image = Image(base: Bytes, fat64: bool, swap: bool, entries: seq<Entry>)

  function EntrySize(fat64: bool): nat {
    if fat64 then 4 + 4 + 8 + 8 + 4 + 4 else 4 + 4 + 4 + 4 + 4
  }

  function TableSize(v: Image): nat {
    8 + EntrySize(v.fat64) * |v.entries|
  }

  function EntryFields(e: Entry, fat64: bool, swap: bool, at: nat): seq<Field> {
    if fat64 then
      [Field(at, e.cpuType), Field(at + 4, e.cpuSubtype)] + Long(at + 8, e.offset, swap) + Long(at + 16, e.size, swap)
      + [Field(at + 24, e.align), Field(at + 28, e.reserved)]
    else
      [Field(at, e.cpuType), Field(at + 4, e.cpuSubtype), Field(at + 8, e.offset), Field(at + 12, e.size),
       Field(at + 16, e.align)]
  }

  /** The fields of the first n entries behind those of the header. */
  function TableFields(v: Image, n: nat): seq<Field>
    requires n <= |v.entries|
  {
    if n == 0 then [Field(0, if v.fat64 then 0xcafebabf else 0xcafebabe), Field(4, |v.entries|)]
    else TableFields(v, n - 1) + EntryFields(v.entries[n - 1], v.fat64, v.swap, 8 + EntrySize(v.fat64) * (n - 1))
  }

  ghost predicate EntryFits(e: Entry, fat64: bool) {
    var limit := if fat64 then WORD * WORD else WORD;
    e.cpuType < WORD && e.cpuSubtype < WORD && e.offset < limit && e.size < limit && e.align < WORD && e.reserved < WORD
  }

  ghost predicate Writable(v: Image) {
    && TableSize(v) <= |v.base| && |v.entries| < WORD
    && forall i :: 0 <= i < |v.entries| ==> EntryFits(v.entries[i], v.fat64)
  }

  lemma EntryAscends(e: Entry, fat64: bool, swap: bool, at: nat)
    requires EntryFits(e, fat64)
    ensures Ascending(EntryFields(e, fat64, swap, at), at, at + EntrySize(fat64))
  {
    hide Long;
    if fat64 {
      LongAscends(at + 8, e.offset, swap);
      LongAscends(at + 16, e.size, swap);
    }
  }

  lemma {:induction false} TableAscends(v: Image, n: nat)
    requires Writable(v) && n <= |v.entries|
    ensures Ascending(TableFields(v, n), 0, 8 + EntrySize(v.fat64) * n)
    decreases n
  {
    hide EntryFields, Ascending;
    if n == 0 {
      HeaderAscends(v);
    } else {
      var at := 8 + EntrySize(v.fat64) * (n - 1);
      TableAscends(v, n - 1);
      EntryAscends(v.entries[n - 1], v.fat64, v.swap, at);
      AscendingOn(TableFields(v, n - 1), 0, at, EntryFields(v.entries[n - 1], v.fat64, v.swap, at),
        at + EntrySize(v.fat64));
    }
  }

  lemma HeaderAscends(v: Image)
    requires |v.entries| < WORD
    ensures Ascending(TableFields(v, 0), 0, 8)
  {
  }

  lemma TableFits(v: Image)
    requires Writable(v)
    ensures FieldsFit(TableFields(v, |v.entries|), |v.base|)
  {
    hide TableFields, FieldsFit, Ascending;
    var n := TableSize(v);
    TableAscends(v, |v.entries|);
    AscendingWithin(TableFields(v, |v.entries|), 0, n, |v.base|);
    AscendingFit(TableFields(v, |v.entries|), 0, |v.base|);
  }

  lemma AscendingWithin(fields: seq<Field>, from: nat, n: nat, more: nat)
    requires Ascending(fields, from, n) && n <= more
    ensures Ascending(fields, from, more)
  {
  }

  ghost function Written(v: Image): (b: Bytes)
    requires Writable(v)
    ensures |b| == |v.base|
  {
    TableFits(v);
    PutNatives(v.base, TableFields(v, |v.entries|), v.swap)
  }

  // ----- Reading it back ---------------------------------------------------------------------

  lemma {:induction false} FieldIsIn(v: Image, n: nat, i: nat, f: Field)
    requires i < n <= |v.entries|
    requires f in EntryFields(v.entries[i], v.fat64, v.swap, 8 + EntrySize(v.fat64) * i)
    ensures f in TableFields(v, n)
    decreases n
  {
    hide EntryFields;
    if i < n - 1 { FieldIsIn(v, n - 1, i, f); }
  }

  lemma {:induction false} HeaderIsIn(v: Image, n: nat, f: Field)
    requires n <= |v.entries| && f in TableFields(v, 0)
    ensures f in TableFields(v, n)
    decreases n
  {
    hide EntryFields;
    if n > 0 { HeaderIsIn(v, n - 1, f); }
  }

  lemma HeaderReads(v: Image)
    requires Writable(v)
    ensures var b := Written(v);
            && M.Native(b, 0, v.swap) == (if v.fat64 then 0xcafebabf else 0xcafebabe)
            && M.Native(b, 4, v.swap) == |v.entries|
  {
    hide M.Native, PutNatives;
    TableFits(v);
    var magic, count := Field(0, if v.fat64 then 0xcafebabf else 0xcafebabe), Field(4, |v.entries|);
    HeaderIsIn(v, |v.entries|, magic);
    HeaderIsIn(v, |v.entries|, count);
    NativesRead(v.base, TableFields(v, |v.entries|), v.swap, magic);
    NativesRead(v.base, TableFields(v, |v.entries|), v.swap, count);
  }

  /** Neither magic is one of them in the other byte order. */
  lemma OtherFatMagic(s: Bytes, swap: bool)
    requires 4 <= |s| && M.Native(s, 0, swap) in {0xcafebabe, 0xcafebabf}
    ensures M.Native(s, 0, !swap) !in {0xcafebabe, 0xcafebabf}
  {
    var a, b, c, d := s[0] as nat, s[1] as nat, s[2] as nat, s[3] as nat;
    if swap {
      Digits(a, b, c, d, 0xca, 0xfe, 0xba, Word(s, 0) % 256);
    } else {
      Digits(d, c, b, a, 0xca, 0xfe, 0xba, M.Native(s, 0, false) % 256);
    }
  }

  lemma FormReads(v: Image)
    requires Writable(v)
    ensures F.FormOf(Written(v)) == Some(F.Form(v.fat64, v.swap))
    ensures F.Framed(Written(v)) <==> 1 <= |v.entries| <= 5
    ensures F.Framed(Written(v)) ==> F.Count(Written(v)) == |v.entries|
  {
    hide M.Native, Written;
    HeaderReads(v);
    OtherFatMagic(Written(v), v.swap);
  }

  function Described(e: Entry): F.Arch {
    F.Arch(e.cpuType, e.cpuSubtype, e.offset, e.size, e.align)
  }

  lemma EntryFieldReads(v: Image, i: nat, f: Field)
    requires Writable(v) && i < |v.entries|
    requires f in EntryFields(v.entries[i], v.fat64, v.swap, 8 + EntrySize(v.fat64) * i)
    ensures f.at + 4 <= |v.base| && M.Native(Written(v), f.at, v.swap) == f.value
  {
    hide M.Native, PutNatives, EntryFields;
    TableFits(v);
    FieldIsIn(v, |v.entries|, i, f);
    NativesRead(v.base, TableFields(v, |v.entries|), v.swap, f);
  }

  lemma EntryReads(v: Image, i: nat)
    requires Writable(v) && F.Framed(Written(v)) && i < |v.entries| == F.Count(Written(v))
    ensures F.ArchAt(Written(v), i) == Described(v.entries[i])
    ensures F.ReservedIsZero(Written(v), i) <==> (v.fat64 ==> v.entries[i].reserved == 0)
  {
    hide M.Native, M.Native64, Written, F.Framed, Long;
    FormReads(v);
    var e, at := v.entries[i], 8 + EntrySize(v.fat64) * i;
    EntryFieldReads(v, i, Field(at, e.cpuType));
    EntryFieldReads(v, i, Field(at + 4, e.cpuSubtype));
    if v.fat64 {
      LongEntryReads(v, i, at + 8, e.offset);
      LongEntryReads(v, i, at + 16, e.size);
      EntryFieldReads(v, i, Field(at + 24, e.align));
      EntryFieldReads(v, i, Field(at + 28, e.reserved));
    } else {
      EntryFieldReads(v, i, Field(at + 8, e.offset));
      EntryFieldReads(v, i, Field(at + 12, e.size));
      EntryFieldReads(v, i, Field(at + 16, e.align));
    }
  }

  lemma LongEntryReads(v: Image, i: nat, at: nat, value: nat)
    requires Writable(v) && i < |v.entries| && value < WORD * WORD
    requires forall f :: f in Long(at, value, v.swap) ==>
               f in EntryFields(v.entries[i], v.fat64, v.swap, 8 + EntrySize(v.fat64) * i)
    ensures at + 8 <= |v.base| && M.Native64(Written(v), at, v.swap) == value
  {
    hide M.Native, M.Native64, Written, EntryFields, Writable;
    var f := Long(at, value, v.swap);
    assert f[0] in f && f[1] in f;
    EntryFieldReads(v, i, f[0]);
    EntryFieldReads(v, i, f[1]);
    LongReads(Written(v), at, value, v.swap);
  }

  lemma {:induction false} FieldsEnd(v: Image, n: nat)
    requires Writable(v) && n <= |v.entries|
    ensures forall k :: 0 <= k < |TableFields(v, n)| ==> TableFields(v, n)[k].at + 4 <= 8 + EntrySize(v.fat64) * n
  {
    hide TableFields;
    TableAscends(v, n);
  }

  /** Behind the table the file is what it was. */
  lemma RestStays(v: Image, lo: nat, hi: nat)
    requires Writable(v) && TableSize(v) <= lo <= hi <= |v.base|
    ensures Written(v)[lo..hi] == v.base[lo..hi]
  {
    hide PutNatives, TableFields;
    TableFits(v);
    FieldsEnd(v, |v.entries|);
    NativesKeep(v.base, TableFields(v, |v.entries|), v.swap, lo, hi);
  }

  /** A slice is where its entry says, aligned, and of the architecture it says. */
  ghost predicate EntryHolds(v: Image, e: Entry) {
    && (v.fat64 ==> e.reserved == 0)
    && 0 < e.size && e.align <= 30 && TableSize(v) <= e.offset && e.offset + e.size <= |v.base|
    && e.offset % Bits.Pow2(e.align) == 0
    && var r := M.Read(v.base[e.offset..e.offset + e.size]);
       r.Some? && r.value.header.cpuType == e.cpuType && r.value.header.cpuSubtype == e.cpuSubtype
  }

  /** Different architectures in stretches that do not meet. */
  ghost predicate EntriesApart(a: Entry, b: Entry) {
    && (a.cpuType != b.cpuType || a.cpuSubtype != b.cpuSubtype)
    && (a.offset + a.size <= b.offset || b.offset + b.size <= a.offset)
  }

  ghost predicate Acceptable(v: Image) {
    && 1 <= |v.entries| <= 5
    && (forall i :: 0 <= i < |v.entries| ==> EntryHolds(v, v.entries[i]))
    && (forall j, i :: 0 <= j < i < |v.entries| ==> EntriesApart(v.entries[j], v.entries[i]))
  }

  lemma EntryIff(v: Image, i: nat)
    requires Writable(v) && F.Framed(Written(v)) && i < |v.entries| == F.Count(Written(v))
    ensures F.ReservedIsZero(Written(v), i) && F.ArchOk(Written(v), F.ArchAt(Written(v), i))
            <==> EntryHolds(v, v.entries[i])
    ensures EntryHolds(v, v.entries[i]) ==>
              var a := F.ArchAt(Written(v), i);
              F.SliceOf(Written(v), a) == v.base[a.offset..a.offset + a.size]
  {
    hide M.Read, M.Native, Written, F.Framed, F.ReservedIsZero, F.ArchAt, Bits.Pow2;
    EntryReads(v, i);
    FormReads(v);
    var e := v.entries[i];
    if TableSize(v) <= e.offset && e.offset + e.size <= |v.base| { RestStays(v, e.offset, e.offset + e.size); }
  }

  /** The parser accepts exactly the tables whose entries hold and are apart. */
  lemma WrittenParses(v: Image)
    requires Writable(v)
    ensures F.Parses(Written(v)) <==> Acceptable(v)
  {
    hide M.Read, M.Native, Written, F.Framed, F.ReservedIsZero, F.ArchAt, F.ArchOk, EntryHolds, F.Count;
    FormReads(v);
    if 1 <= |v.entries| <= 5 {
      var b := Written(v);
      forall i | 0 <= i < |v.entries|
        ensures F.ArchAt(b, i) == Described(v.entries[i])
        ensures F.ReservedIsZero(b, i) && F.ArchOk(b, F.ArchAt(b, i)) <==> EntryHolds(v, v.entries[i])
      {
        EntryReads(v, i);
        EntryIff(v, i);
      }
      forall j, i | 0 <= j < i < |v.entries|
        ensures !F.Clash(F.ArchAt(b, j), F.ArchAt(b, i)) <==> EntriesApart(v.entries[j], v.entries[i])
      {
      }
    }
  }

  /** And it reports each as written, with what its slice reads as. */
  lemma WrittenIsReported(v: Image, i: nat)
    requires Writable(v) && Acceptable(v) && i < |v.entries|
    ensures F.Framed(Written(v)) && F.Count(Written(v)) == |v.entries|
    ensures F.ArchOk(Written(v), F.ArchAt(Written(v), i))
    ensures var r, e := F.ParsedAt(Written(v), i), v.entries[i];
            r.arch == Described(e) && M.Read(v.base[e.offset..e.offset + e.size]) == Some(r.reading)
  {
    hide M.Read, M.Native, Written, F.Framed, F.ReservedIsZero, F.ArchAt, F.Count, Bits.Pow2, F.SliceOf;
    FormReads(v);
    EntryReads(v, i);
    EntryIff(v, i);
  }
}
