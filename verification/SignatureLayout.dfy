/**
 What the index of an embedded signature means, from the writer's side: its entries are laid out
 field by field and the parser finds exactly what was laid out.
 */
module SignatureLayout {
  import opened Wrappers
  import opened BigEndian
  import S = SuperBlob

  datatype Entry = Entry(kind: nat, offset: nat)

  /** A signature whose index is to be written over `base`; its blobs lie in `base`. */
  datatype Signature = Signature(base: Bytes, length: nat, entries: seq<Entry>)

  function IndexSize(v: Signature): nat {
    12 + 8 * |v.entries|
  }

  /** The fields of the first n entries behind those of the header. */
  function IndexFields(v: Signature, n: nat): seq<Field>
    requires n <= |v.entries|
  {
    if n == 0 then [Field(0, 0xfade0cc0), Field(4, v.length), Field(8, |v.entries|)]
    else
      var e := v.entries[n - 1];
      IndexFields(v, n - 1) + [Field(12 + 8 * (n - 1), e.kind), Field(16 + 8 * (n - 1), e.offset)]
  }

  ghost predicate Writable(v: Signature) {
    && IndexSize(v) <= |v.base| && |v.entries| < WORD && v.length < WORD
    && forall i :: 0 <= i < |v.entries| ==> v.entries[i].kind < WORD && v.entries[i].offset < WORD
  }

  lemma {:induction false} IndexAscends(v: Signature, n: nat)
    requires Writable(v) && n <= |v.entries|
    ensures Ascending(IndexFields(v, n), 0, 12 + 8 * n)
    decreases n
  {
    if n > 0 {
      IndexAscends(v, n - 1);
      var e, at := v.entries[n - 1], 12 + 8 * (n - 1);
      AscendingOn(IndexFields(v, n - 1), 0, at, [Field(at, e.kind), Field(at + 4, e.offset)], at + 8);
    }
  }

  lemma IndexFits(v: Signature)
    requires Writable(v)
    ensures FieldsFit(IndexFields(v, |v.entries|), |v.base|)
  {
    hide IndexFields, FieldsFit;
    IndexAscends(v, |v.entries|);
    AscendingFit(IndexFields(v, |v.entries|), 0, |v.base|);
  }

  ghost function Written(v: Signature): (b: Bytes)
    requires Writable(v)
    ensures |b| == |v.base|
  {
    IndexFits(v);
    PutWords(v.base, IndexFields(v, |v.entries|))
  }

  lemma {:induction false} FieldIsIn(v: Signature, n: nat, i: nat)
    requires i < n <= |v.entries|
    ensures Field(12 + 8 * i, v.entries[i].kind) in IndexFields(v, n)
    ensures Field(16 + 8 * i, v.entries[i].offset) in IndexFields(v, n)
    decreases n
  {
    if i < n - 1 { FieldIsIn(v, n - 1, i); }
  }

  lemma {:induction false} HeaderIsIn(v: Signature, n: nat)
    requires n <= |v.entries|
    ensures forall f :: f in IndexFields(v, 0) ==> f in IndexFields(v, n)
    decreases n
  {
    if n > 0 { HeaderIsIn(v, n - 1); }
  }

  lemma HeaderReads(v: Signature)
    requires Writable(v)
    ensures var b := Written(v);
            |b| >= 12 && Word(b, 0) == 0xfade0cc0 && Word(b, 4) == v.length && Word(b, 8) == |v.entries|
  {
    hide PutWords, Word;
    IndexFits(v);
    HeaderIsIn(v, |v.entries|);
    var fields := IndexFields(v, |v.entries|);
    WordsReadAt(v.base, fields, Field(0, 0xfade0cc0));
    WordsReadAt(v.base, fields, Field(4, v.length));
    WordsReadAt(v.base, fields, Field(8, |v.entries|));
  }

  lemma EntryReads(v: Signature, i: nat)
    requires Writable(v) && i < |v.entries|
    ensures Word(Written(v), 12 + 8 * i) == v.entries[i].kind && Word(Written(v), 16 + 8 * i) == v.entries[i].offset
  {
    hide PutWords, Word;
    IndexFits(v);
    FieldIsIn(v, |v.entries|, i);
    WordsReadAt(v.base, IndexFields(v, |v.entries|), Field(12 + 8 * i, v.entries[i].kind));
    WordsReadAt(v.base, IndexFields(v, |v.entries|), Field(16 + 8 * i, v.entries[i].offset));
  }

  /** Behind the index the signature is what it was. */
  lemma RestStays(v: Signature, lo: nat, hi: nat)
    requires Writable(v) && IndexSize(v) <= lo <= hi <= |v.base|
    ensures Written(v)[lo..hi] == v.base[lo..hi]
  {
    hide PutWords, IndexFields;
    IndexFits(v);
    IndexAscends(v, |v.entries|);
    WordsKeep(v.base, IndexFields(v, |v.entries|), lo, hi);
  }

  // ----- What the parser must find --------------------------------------------------------------

  /** A blob carries its own length. */
  function BlobSize(v: Signature, e: Entry): nat
    requires e.offset + 8 <= |v.base|
  {
    Word(v.base, e.offset + 4)
  }

  ghost predicate EntryHolds(v: Signature, e: Entry)
    requires v.length <= |v.base|
  {
    && IndexSize(v) <= e.offset && e.offset + 8 <= v.length
    && 8 <= BlobSize(v, e) && e.offset + BlobSize(v, e) <= v.length
  }

  ghost function BlobOf(v: Signature, e: Entry): S.Blob
    requires v.length <= |v.base| && EntryHolds(v, e)
  {
    S.Blob(e.kind, v.base[e.offset..e.offset + BlobSize(v, e)])
  }

  /** Different types in stretches that do not meet. */
  ghost predicate EntriesApart(v: Signature, a: Entry, b: Entry)
    requires v.length <= |v.base| && EntryHolds(v, a) && EntryHolds(v, b)
  {
    && a.kind != b.kind
    && (a.offset + BlobSize(v, a) <= b.offset || b.offset + BlobSize(v, b) <= a.offset)
  }

  ghost predicate Acceptable(v: Signature) {
    && v.length <= |v.base| && 1 <= |v.entries| <= 64 && IndexSize(v) <= v.length
    && (forall i :: 0 <= i < |v.entries| ==> EntryHolds(v, v.entries[i]))
    && (forall j, i :: 0 <= j < i < |v.entries| ==> EntriesApart(v, v.entries[j], v.entries[i]))
  }

  lemma FramedIff(v: Signature)
    requires Writable(v)
    ensures S.Framed(Written(v)) <==> v.length <= |v.base| && 1 <= |v.entries| <= 64 && IndexSize(v) <= v.length
  {
    hide Written, Word;
    HeaderReads(v);
  }

  lemma EntryIff(v: Signature, i: nat)
    requires Writable(v) && S.Framed(Written(v)) && i < |v.entries| == Word(Written(v), 8) && v.length <= |v.base|
    ensures S.Kind(Written(v), i) == v.entries[i].kind && S.Offset(Written(v), i) == v.entries[i].offset
    ensures S.EntryOk(Written(v), i) <==> EntryHolds(v, v.entries[i])
    ensures EntryHolds(v, v.entries[i]) ==>
              S.BlobAt(Written(v), i) == BlobOf(v, v.entries[i])
  {
    hide Written, Word;
    HeaderReads(v);
    EntryReads(v, i);
    var e := v.entries[i];
    if IndexSize(v) <= e.offset && e.offset + 8 <= v.length {
      RestStays(v, e.offset, e.offset + 8);
      SameWord(Written(v), v.base, e.offset, e.offset + 8, e.offset, e.offset + 4);
      if EntryHolds(v, e) { RestStays(v, e.offset, e.offset + BlobSize(v, e)); }
    }
  }

  /** The parser accepts exactly the indexes whose entries hold and are apart, and reports each blob
      as written. */
  lemma WrittenParses(v: Signature)
    requires Writable(v)
    ensures S.Parses(Written(v)) <==> Acceptable(v)
    ensures Acceptable(v) ==> |S.View(Written(v))| == |v.entries| && forall i :: 0 <= i < |v.entries| ==>
              S.View(Written(v))[i] == BlobOf(v, v.entries[i])
  {
    hide Written, Word, S.Framed, S.EntryOk, S.Kind, S.Offset, EntryHolds, BlobOf, S.BlobAt;
    FramedIff(v);
    HeaderReads(v);
    var b := Written(v);
    if S.Framed(b) {
      forall i | 0 <= i < |v.entries| ensures S.EntryOk(b, i) <==> EntryHolds(v, v.entries[i]) { EntryIff(v, i); }
      if forall i :: 0 <= i < |v.entries| ==> EntryHolds(v, v.entries[i]) {
        forall j, i | 0 <= j < i < |v.entries|
          ensures !S.Clash(b, j, i) <==> EntriesApart(v, v.entries[j], v.entries[i])
        {
          EntryIff(v, i);
          EntryIff(v, j);
          SizeIs(v, i);
          SizeIs(v, j);
        }
        forall i | 0 <= i < |v.entries|
          ensures S.BlobAt(b, i) == BlobOf(v, v.entries[i])
        {
          EntryIff(v, i);
        }
      }
    }
  }

  lemma SizeIs(v: Signature, i: nat)
    requires Writable(v) && S.Framed(Written(v)) && i < |v.entries| == Word(Written(v), 8) && v.length <= |v.base|
    requires EntryHolds(v, v.entries[i])
    ensures S.EntryOk(Written(v), i) && S.Size(Written(v), i) == BlobSize(v, v.entries[i])
  {
    hide Written, Word;
    EntryIff(v, i);
    EntryReads(v, i);
    HeaderReads(v);
    var e := v.entries[i];
    RestStays(v, e.offset, e.offset + 8);
    SameWord(Written(v), v.base, e.offset, e.offset + 8, e.offset, e.offset + 4);
  }
}
