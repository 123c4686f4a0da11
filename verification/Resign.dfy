/**
 Replacing the signature of an encrypted slice: the source signature's directories
 are transformed, a donor's components take the place of its own, and the blobs are
 sorted and packed into the allocation the slice already has.
 */
module Resign {
  import opened Wrappers
  import opened BigEndian
  import opened SuperBlob
  import Bits
  import CD = CodeDirectory
  import M = MachOSlice

  const CMS_SIGNATURE: nat := 0x10000
  const EMPTY_CMS: Bytes := [0xfa, 0xde, 0x0b, 0x01, 0, 0, 0, 8]

  predicate IsDirectory(kind: nat) {
    kind == 0 || 0x1000 <= kind < 0x1005
  }

  /** The types a donor supplies, never copied from the source signature. */
  predicate IsComponent(kind: nat) {
    CD.Replaced(kind) || kind == CMS_SIGNATURE
  }

  datatype Signing = Signing(
    hash: CD.Hash,
    donor: CD.Donor,
    team: Bytes,
    sliceSize: nat,
    signatureOffset: nat,
    teamAlone: bool)

  ghost predicate DonorOk(donor: CD.Donor) {
    && (donor.requirements.Some? ==> WellFormed(Blob(CD.SLOT_REQUIREMENTS, donor.requirements.value)))
    && WellFormed(Blob(CD.SLOT_ENTITLEMENTS, donor.entitlements))
    && WellFormed(Blob(CD.SLOT_DER_ENTITLEMENTS, donor.derEntitlements))
  }

  // ----- Which blobs go in -------------------------------------------------------------

  predicate Accepts(g: Signing, blob: Blob) {
    match CD.Parse(blob.bytes)
    case None => false
    case Some(d) => CD.CanTransform(|blob.bytes|, d, g.team, g.sliceSize, g.signatureOffset)
  }

  ghost predicate AllAccepted(g: Signing, v: seq<Blob>) {
    forall i :: 0 <= i < |v| && IsDirectory(v[i].kind) ==> Accepts(g, v[i])
  }

  ghost predicate HasDirectory(v: seq<Blob>) {
    exists i :: 0 <= i < |v| && IsDirectory(v[i].kind)
  }

  ghost function Rebuilt(g: Signing, blob: Blob): (r: Blob)
    requires IsDirectory(blob.kind) ==> Accepts(g, blob)
    requires CD.NoNul(g.team)
    ensures r.kind == blob.kind
  {
    if !IsDirectory(blob.kind) then blob
    else Blob(blob.kind, CD.Sealed(g.hash, blob.bytes, CD.Parse(blob.bytes).value, g.donor, g.team, g.teamAlone))
  }

  /** What the source signature contributes, in its own order. */
  ghost function Kept(g: Signing, v: seq<Blob>): (r: seq<Blob>)
    requires AllAccepted(g, v) && CD.NoNul(g.team)
    ensures |r| <= |v|
  {
    if v == [] then []
    else
      var last := |v| - 1;
      if IsComponent(v[last].kind) then Kept(g, v[..last]) else Kept(g, v[..last]) + [Rebuilt(g, v[last])]
  }

  function DonorBlobs(donor: CD.Donor): (r: seq<Blob>) {
    (match donor.requirements case Some(b) => [Blob(CD.SLOT_REQUIREMENTS, b)] case None => [])
    + [Blob(CD.SLOT_ENTITLEMENTS, donor.entitlements),
       Blob(CD.SLOT_DER_ENTITLEMENTS, donor.derEntitlements),
       Blob(CMS_SIGNATURE, EMPTY_CMS)]
  }

  ghost function Collected(g: Signing, v: seq<Blob>): seq<Blob>
    requires AllAccepted(g, v) && CD.NoNul(g.team)
  {
    Kept(g, v) + DonorBlobs(g.donor)
  }

  /** Every kept blob comes from a source blob of the same type. */
  lemma {:induction false} KeptFrom(g: Signing, v: seq<Blob>, i: nat) returns (k: nat)
    requires AllAccepted(g, v) && CD.NoNul(g.team) && i < |Kept(g, v)|
    ensures k < |v| && !IsComponent(v[k].kind) && Kept(g, v)[i] == Rebuilt(g, v[k])
    decreases |v|
  {
    hide Accepts, Rebuilt;
    var last := |v| - 1;
    if i < |Kept(g, v[..last])| { k := KeptFrom(g, v[..last], i); } else { k := last; }
  }

  /** Every source blob that is not a component is kept. */
  lemma {:induction false} KeptHas(g: Signing, v: seq<Blob>, k: nat)
    requires AllAccepted(g, v) && CD.NoNul(g.team) && k < |v| && !IsComponent(v[k].kind)
    ensures Rebuilt(g, v[k]) in Kept(g, v)
    decreases |v|
  {
    hide Accepts, Rebuilt;
    var last := |v| - 1;
    if k < last { KeptHas(g, v[..last], k); }
  }

  lemma {:induction false} KeptIsDistinct(g: Signing, v: seq<Blob>)
    requires AllAccepted(g, v) && CD.NoNul(g.team) && DistinctKinds(v)
    ensures DistinctKinds(Kept(g, v))
    decreases |v|
  {
    hide Accepts, Rebuilt;
    if v != [] {
      var last := |v| - 1;
      KeptIsDistinct(g, v[..last]);
      if !IsComponent(v[last].kind) {
        forall i | 0 <= i < |Kept(g, v[..last])| ensures Kept(g, v[..last])[i].kind != v[last].kind {
          var k := KeptFrom(g, v[..last], i);
        }
      }
    }
  }

  lemma CollectedIsDistinct(g: Signing, v: seq<Blob>)
    requires AllAccepted(g, v) && CD.NoNul(g.team) && DistinctKinds(v)
    ensures DistinctKinds(Collected(g, v))
  {
    hide Accepts, Rebuilt, Kept;
    KeptIsDistinct(g, v);
    var kept := Kept(g, v);
    forall i | 0 <= i < |kept| ensures !IsComponent(kept[i].kind) {
      var k := KeptFrom(g, v, i);
    }
    assert forall i :: 0 <= i < |DonorBlobs(g.donor)| ==> IsComponent(DonorBlobs(g.donor)[i].kind);
  }

  lemma RebuiltIsWellFormed(g: Signing, blob: Blob)
    requires WellFormed(blob) && CD.NoNul(g.team) && (IsDirectory(blob.kind) ==> Accepts(g, blob))
    ensures WellFormed(Rebuilt(g, blob))
  {
    hide CD.Sealed, CD.Transformed, Word, CD.OffsetsOk, CD.CoverageOk, CD.HashesOk, CD.Growth;
    if IsDirectory(blob.kind) {
      var d := CD.Parse(blob.bytes).value;
      RebuiltDirectory(g, blob);
    }
  }

  /** A rebuilt directory is the transformation of its source. */
  lemma RebuiltDirectory(g: Signing, blob: Blob)
    requires IsDirectory(blob.kind) && Accepts(g, blob) && CD.NoNul(g.team)
    ensures var b, d, r := blob.bytes, CD.Parse(blob.bytes).value, Rebuilt(g, blob).bytes;
      && CD.HashesOk(d, |b|) && d.flags < WORD
      && CD.Transformed(g.hash, b, d, g.donor, g.team, g.teamAlone, r)
      && CD.Framed(r) && |r| == |b| + CD.Growth(d, g.team)
  {
    hide CD.Sealed, CD.OffsetsOk, CD.CoverageOk, CD.HashesOk, CD.Growth, CD.Read, CD.Framed, CD.SparesOk, CD.StringAt,
         CD.SameExtras;
    CD.SealedIsTransformed(g.hash, blob.bytes, CD.Parse(blob.bytes).value, g.donor, g.team, g.teamAlone);
  }

  lemma CollectedIsWellFormed(g: Signing, v: seq<Blob>)
    requires AllAccepted(g, v) && CD.NoNul(g.team) && DonorOk(g.donor)
    requires forall i :: 0 <= i < |v| ==> WellFormed(v[i])
    ensures forall i :: 0 <= i < |Collected(g, v)| ==> WellFormed(Collected(g, v)[i])
  {
    hide Accepts, Rebuilt, Kept, DonorBlobs, WellFormed;
    var kept := Kept(g, v);
    forall i | 0 <= i < |kept| ensures WellFormed(kept[i]) {
      var k := KeptFrom(g, v, i);
      RebuiltIsWellFormed(g, v[k]);
    }
    DonorIsWellFormed(g.donor);
  }

  lemma DonorIsWellFormed(donor: CD.Donor)
    requires DonorOk(donor)
    ensures forall i :: 0 <= i < |DonorBlobs(donor)| ==> WellFormed(DonorBlobs(donor)[i])
  {
    assert Word(EMPTY_CMS, 4) == 8;
  }

  // ----- Sorting by type ---------------------------------------------------------------

  ghost predicate SortedByKind(s: seq<Blob>) {
    forall j, i :: 0 <= j < i < |s| ==> s[j].kind < s[i].kind
  }

  ghost predicate SameBlobs(s: seq<Blob>, t: seq<Blob>) {
    multiset(s) == multiset(t)
  }

  lemma SameBlobsKeep(s: seq<Blob>, t: seq<Blob>)
    requires SameBlobs(s, t)
    ensures |s| == |t|
    ensures forall b :: b in s <==> b in t
  {
    assert |multiset(s)| == |s| && |multiset(t)| == |t|;
    forall b ensures b in s <==> b in t {
      assert b in multiset(s) <==> b in multiset(t);
    }
  }

  /** Sorts blobs of distinct types; for such blobs there is only one sorted order. */
  method Sort(blobs: seq<Blob>) returns (sorted: seq<Blob>)
    requires DistinctKinds(blobs)
    ensures SortedByKind(sorted) && SameBlobs(sorted, blobs)
  {
    sorted := [];
    for i := 0 to |blobs|
      invariant SortedByKind(sorted) && SameBlobs(sorted, blobs[..i])
    {
      SameBlobsKeep(sorted, blobs[..i]);
      forall k | 0 <= k < |sorted| ensures sorted[k].kind != blobs[i].kind {
        assert sorted[k] in blobs[..i];
        var j :| 0 <= j < i && blobs[..i][j] == sorted[k];
      }
      var at := FindPlace(sorted, blobs[i].kind);
      InsertKeeps(sorted, at, blobs[i]);
      assert blobs[..i + 1] == blobs[..i] + [blobs[i]];
      sorted := sorted[..at] + [blobs[i]] + sorted[at..];
    }
    assert blobs[..|blobs|] == blobs;
  }

  method FindPlace(sorted: seq<Blob>, kind: nat) returns (at: nat)
    requires SortedByKind(sorted)
    ensures at <= |sorted|
    ensures forall k :: 0 <= k < at ==> sorted[k].kind < kind
    ensures forall k :: at <= k < |sorted| ==> kind <= sorted[k].kind
  {
    at := 0;
    while at < |sorted| && sorted[at].kind < kind
      invariant 0 <= at <= |sorted|
      invariant forall k :: 0 <= k < at ==> sorted[k].kind < kind
    {
      at := at + 1;
    }
  }

  lemma InsertKeeps(s: seq<Blob>, at: nat, b: Blob)
    requires SortedByKind(s) && at <= |s|
    requires forall k :: 0 <= k < at ==> s[k].kind < b.kind
    requires forall k :: at <= k < |s| ==> b.kind < s[k].kind
    ensures SortedByKind(s[..at] + [b] + s[at..])
    ensures SameBlobs(s[..at] + [b] + s[at..], s + [b])
  {
    assert s == s[..at] + s[at..];
  }

  // ----- The new signature -----------------------------------------------------------------

  lemma KeptNext(g: Signing, v: seq<Blob>, i: nat)
    requires CD.NoNul(g.team) && i < |v| && AllAccepted(g, v[..i])
    ensures AllAccepted(g, v[..i + 1]) <==> (IsDirectory(v[i].kind) ==> Accepts(g, v[i]))
    ensures AllAccepted(g, v[..i + 1]) ==>
      Kept(g, v[..i + 1]) == if IsComponent(v[i].kind) then Kept(g, v[..i]) else Kept(g, v[..i]) + [Rebuilt(g, v[i])]
    ensures HasDirectory(v[..i + 1]) <==> HasDirectory(v[..i]) || IsDirectory(v[i].kind)
  {
    hide Accepts, Rebuilt, IsDirectory;
    assert v[..i + 1][..i] == v[..i] && v[..i + 1][i] == v[i];
    forall k | 0 <= k < i ensures v[..i + 1][k] == v[..i][k] {}
  }

  /** One refused directory refuses the signature. */
  lemma RefusedStays(g: Signing, v: seq<Blob>, i: nat)
    requires i < |v| && IsDirectory(v[i].kind) && !Accepts(g, v[i])
    ensures !AllAccepted(g, v)
  {
  }

  method Collect(g: Signing, v: seq<Blob>) returns (r: Option<seq<Blob>>)
    requires CD.NoNul(g.team) && |v| <= MAX_BLOBS
    ensures r.Some? <==> AllAccepted(g, v) && HasDirectory(v) && |Collected(g, v)| <= MAX_BLOBS
    ensures r.Some? ==> r.value == Collected(g, v) && r.value != []
  {
    hide Accepts, AllAccepted, HasDirectory, Kept, IsDirectory;
    var blobs, directories := [], 0;
    assert AllAccepted(g, v[..0]) && Kept(g, v[..0]) == [] && !HasDirectory(v[..0]) by { NothingKept(g, v); }
    for i := 0 to |v|
      invariant AllAccepted(g, v[..i]) && blobs == Kept(g, v[..i])
      invariant directories > 0 <==> HasDirectory(v[..i])
    {
      KeptNext(g, v, i);
      if IsDirectory(v[i].kind) {
        var transformed := TransformBlob(g, v[i]);
        if transformed.None? { RefusedStays(g, v, i); return None; }
        assert !IsComponent(v[i].kind) by { DirectoriesAreKept(v[i].kind); }
        blobs := blobs + [transformed.value];
        directories := directories + 1;
      } else if !IsComponent(v[i].kind) {
        blobs := blobs + [v[i]];
      }
    }
    assert v[..|v|] == v;
    if directories == 0 { return None; }
    var all := blobs + DonorBlobs(g.donor);
    return if |all| <= MAX_BLOBS then Some(all) else None;
  }

  lemma NothingKept(g: Signing, v: seq<Blob>)
    requires CD.NoNul(g.team)
    ensures AllAccepted(g, v[..0]) && Kept(g, v[..0]) == [] && !HasDirectory(v[..0])
  {
  }

  lemma DirectoriesAreKept(kind: nat)
    requires IsDirectory(kind)
    ensures !IsComponent(kind)
  {
  }

  method TransformBlob(g: Signing, blob: Blob) returns (r: Option<Blob>)
    requires CD.NoNul(g.team) && IsDirectory(blob.kind)
    ensures r.Some? <==> Accepts(g, blob)
    ensures r.Some? ==> r.value == Rebuilt(g, blob)
  {
    hide CD.Parse, CD.CanTransform, CD.Sealed, CD.Transformed, CD.HashesOk;
    var bytes := CD.Transform(g.hash, blob.bytes, g.donor, g.team, g.sliceSize, g.signatureOffset, g.teamAlone);
    return match bytes case None => None case Some(b) => Some(Blob(blob.kind, b));
  }

  /** The blobs of the new signature: those collected, in order of type. */
  ghost predicate IsNewView(g: Signing, v: seq<Blob>, w: seq<Blob>)
    requires AllAccepted(g, v) && CD.NoNul(g.team)
  {
    SortedByKind(w) && SameBlobs(w, Collected(g, v))
  }

  ghost predicate Fits(g: Signing, s: Bytes)
    requires CD.NoNul(g.team)
  {
    && Parses(s) && AllAccepted(g, View(s)) && HasDirectory(View(s)) && |Collected(g, View(s))| <= MAX_BLOBS
    && PackedSize(Collected(g, View(s))) <= |s|
  }

  function PackedSize(blobs: seq<Blob>): nat {
    if blobs == [] then HEADER else PackedSize(blobs[..|blobs| - 1]) + ENTRY + |blobs[|blobs| - 1].bytes|
  }

  /** The new signature fills the allocation of the old one and parses into exactly
      the collected blobs; it is refused exactly when they do not fit. */
  method NewSignature(g: Signing, s: Bytes) returns (out: Option<Bytes>)
    requires CD.NoNul(g.team) && DonorOk(g.donor) && |s| < WORD
    ensures out.Some? <==> Fits(g, s)
    ensures out.Some? ==> |out.value| == |s| && Parses(out.value) && IsNewView(g, View(s), View(out.value))
    ensures out.Some? ==> forall i :: PackedSize(Collected(g, View(s))) <= i < |s| ==> out.value[i] == 0
  {
    hide Parses, View, AllAccepted, HasDirectory, DonorOk, Kept, DonorBlobs, WellFormed;
    var source := Parse(s);
    if source.None? { return None; }
    var v := source.value;
    ViewIsWellFormed(s);
    ViewIsShort(s);
    var collected := Collect(g, v);
    if collected.None? { return None; }
    CollectedIsDistinct(g, v);
    CollectedIsWellFormed(g, v);
    var blobs := Sort(collected.value);
    SameBlobsKeep(blobs, collected.value);
    SortedIsPackable(blobs, collected.value);
    var length := PackedLength(blobs);
    if length > |s| { return None; }
    var a := Pack(blobs, |s|);
    return Some(a[..]);
  }

  lemma ViewIsShort(s: Bytes)
    requires Parses(s)
    ensures |View(s)| <= MAX_BLOBS
  {
  }

  lemma SortedIsPackable(blobs: seq<Blob>, all: seq<Blob>)
    requires SortedByKind(blobs) && SameBlobs(blobs, all) && |blobs| == |all| && forall b :: b in blobs <==> b in all
    requires forall i :: 0 <= i < |all| ==> WellFormed(all[i])
    ensures DistinctKinds(blobs)
    ensures forall i :: 0 <= i < |blobs| ==> WellFormed(blobs[i])
    ensures OffsetOf(blobs, |blobs|) == PackedSize(all)
  {
    hide WellFormed;
    forall i | 0 <= i < |blobs| ensures WellFormed(blobs[i]) {
      assert blobs[i] in all;
    }
    OffsetIsPackedSize(blobs, |blobs|);
    assert blobs[..|blobs|] == blobs;
    PackedSizeIgnoresOrder(blobs, all);
  }

  lemma {:induction false} OffsetIsPackedSize(blobs: seq<Blob>, k: nat)
    requires k <= |blobs|
    ensures OffsetOf(blobs, k) == PackedSize(blobs[..k]) + ENTRY * (|blobs| - k)
  {
    if k > 0 {
      assert blobs[..k][..k - 1] == blobs[..k - 1];
      OffsetIsPackedSize(blobs, k - 1);
    }
  }

  lemma {:induction false} PackedSizeOf(a: seq<Blob>, b: Blob, c: seq<Blob>)
    ensures PackedSize(a + [b] + c) == PackedSize(a + c) + ENTRY + |b.bytes|
    decreases |c|
  {
    if c == [] {
      assert a + [b] + c == a + [b] && a + c == a && (a + [b])[..|a|] == a;
    } else {
      var last := |c| - 1;
      assert (a + [b] + c)[..|a| + 1 + last] == a + [b] + c[..last];
      assert (a + c)[..|a| + last] == a + c[..last];
      PackedSizeOf(a, b, c[..last]);
    }
  }

  function Without(t: seq<Blob>, i: nat): seq<Blob>
    requires i < |t|
  {
    t[..i] + t[i + 1..]
  }

  lemma WithoutOne(t: seq<Blob>, i: nat)
    requires i < |t|
    ensures multiset(Without(t, i)) == multiset(t) - multiset{t[i]}
    ensures PackedSize(t) == PackedSize(Without(t, i)) + ENTRY + |t[i].bytes|
  {
    hide PackedSize;
    assert t == t[..i] + [t[i]] + t[i + 1..];
    PackedSizeOf(t[..i], t[i], t[i + 1..]);
  }

  lemma {:induction false} PackedSizeIgnoresOrder(s: seq<Blob>, t: seq<Blob>)
    requires SameBlobs(s, t)
    ensures PackedSize(s) == PackedSize(t)
    decreases |s|
  {
    SameBlobsKeep(s, t);
    if s != [] {
      hide PackedSize;
      assert s[0] in t;
      var i :| 0 <= i < |t| && t[i] == s[0];
      WithoutOne(s, 0);
      WithoutOne(t, i);
      PackedSizeIgnoresOrder(Without(s, 0), Without(t, i));
    }
  }

  // ----- The new signature is consistent ------------------------------------------------

  function Find(v: seq<Blob>, kind: nat): Option<Bytes> {
    if v == [] then None else if v[0].kind == kind then Some(v[0].bytes) else Find(v[1..], kind)
  }

  lemma {:induction false} FindIs(v: seq<Blob>, kind: nat, found: Option<Bytes>)
    requires found.Some? ==> Blob(kind, found.value) in v
    requires forall b :: b in v && b.kind == kind ==> found == Some(b.bytes)
    ensures Find(v, kind) == found
  {
    if v != [] {
      assert v[0] in v;
      if v[0].kind != kind {
        assert forall b :: b in v[1..] ==> b in v;
        assert found.Some? ==> Blob(kind, found.value) in v[1..];
        FindIs(v[1..], kind, found);
      }
    }
  }

  /** A collected blob is a kept one or the donor's. */
  lemma CollectedIs(g: Signing, v: seq<Blob>, b: Blob) returns (k: nat)
    requires AllAccepted(g, v) && CD.NoNul(g.team) && b in Collected(g, v)
    ensures b in DonorBlobs(g.donor) || (k < |v| && !IsComponent(v[k].kind) && b == Rebuilt(g, v[k]))
  {
    hide Accepts, Rebuilt, Kept, DonorBlobs;
    k := 0;
    var i :| 0 <= i < |Collected(g, v)| && Collected(g, v)[i] == b;
    if i < |Kept(g, v)| { k := KeptFrom(g, v, i); }
  }

  /** The components packed are the donor's and no others. */
  lemma ComponentsAreTheDonors(g: Signing, v: seq<Blob>, w: seq<Blob>, slot: nat)
    requires AllAccepted(g, v) && CD.NoNul(g.team) && IsNewView(g, v, w) && CD.Replaced(slot)
    ensures Find(w, slot) == CD.Component(g.donor, slot)
  {
    hide Accepts, Rebuilt, Kept, Collected, AllAccepted;
    SameBlobsKeep(w, Collected(g, v));
    var found := CD.Component(g.donor, slot);
    if found.Some? { DonorBlobIsCollected(g, v, slot); }
    forall b | b in w && b.kind == slot
      ensures found == Some(b.bytes)
    {
      var k := CollectedIs(g, v, b);
    }
    FindIs(w, slot, found);
  }

  lemma DonorBlobIsCollected(g: Signing, v: seq<Blob>, slot: nat)
    requires AllAccepted(g, v) && CD.NoNul(g.team) && CD.Replaced(slot) && CD.Component(g.donor, slot).Some?
    ensures Blob(slot, CD.Component(g.donor, slot).value) in Collected(g, v)
  {
    hide Accepts, Kept;
    var b := Blob(slot, CD.Component(g.donor, slot).value);
    assert b in DonorBlobs(g.donor) by {
      var d, n := DonorBlobs(g.donor), |DonorBlobs(g.donor)|;
      assert d[n - 3].kind == 5 && d[n - 2].kind == 7 && (slot == 2 ==> d[0] == b);
    }
  }

  /** What a slot holds for a component, if there is one. */
  function SlotFor(hash: CD.Hash, d: CD.Directory, component: Option<Bytes>): Bytes {
    match component case Some(c) => CD.Digest(hash, d, c) case None => Zeros(d.hashSize)
  }

  /** Each directory of the new signature hashes, in its special slots, exactly the
      components packed beside it. */
  lemma DirectoriesMatchComponents(g: Signing, v: seq<Blob>, w: seq<Blob>, b: Blob, slot: nat)
    requires AllAccepted(g, v) && CD.NoNul(g.team) && IsNewView(g, v, w)
    requires b in w && IsDirectory(b.kind) && CD.Replaced(slot)
    ensures CD.Parse(b.bytes).Some?
    ensures var t := CD.Parse(b.bytes).value;
      && slot <= t.specialSlots
      && CD.Slot(b.bytes, t, slot) == SlotFor(g.hash, t, Find(w, slot))
  {
    hide Accepts, Rebuilt, Kept, Collected, AllAccepted, CD.Parse, CD.HashesOk, CD.Slot, CD.StringAt, CD.SameExtras,
         CD.Growth;
    SameBlobsKeep(w, Collected(g, v));
    var k := CollectedIs(g, v, b);
    DonorsAreComponents(g.donor);
    RebuiltFacts(g, v, k);
    ComponentsAreTheDonors(g, v, w, slot);
    var d := CD.Parse(v[k].bytes).value;
    assert CD.Slot(b.bytes, CD.Result(d, g.team, g.teamAlone), slot)
           == CD.NewSlot(g.hash, v[k].bytes, d, g.donor, slot);
  }

  lemma DonorsAreComponents(donor: CD.Donor)
    ensures forall b :: b in DonorBlobs(donor) ==> !IsDirectory(b.kind)
  {
  }

  lemma RebuiltFacts(g: Signing, v: seq<Blob>, k: nat)
    requires AllAccepted(g, v) && CD.NoNul(g.team) && k < |v| && IsDirectory(v[k].kind)
    ensures Accepts(g, v[k]) && CD.Parse(v[k].bytes).Some?
    ensures var b, d, r := v[k].bytes, CD.Parse(v[k].bytes).value, Rebuilt(g, v[k]).bytes;
      && CD.HashesOk(d, |b|) && d.flags < WORD && CD.Transformed(g.hash, b, d, g.donor, g.team, g.teamAlone, r)
      && d.signingLimit <= g.signatureOffset && d.signingLimit <= g.sliceSize
  {
    hide CD.Parse, Rebuilt, CD.HashesOk, CD.Transformed, CD.Growth;
    assert Accepts(g, v[k]);
    RebuiltDirectory(g, v[k]);
  }

  // ----- The code hashes stay valid ---------------------------------------------------------

  /** The bytes of code page `i`. */
  function Page(slice: Bytes, d: CD.Directory, i: nat): Bytes {
    if d.pageSize == 0 then (if d.signingLimit <= |slice| then slice[..d.signingLimit] else [])
    else
      var size := Bits.Pow2(d.pageSize);
      var lo := i * size;
      var hi := if lo + size < d.signingLimit then lo + size else d.signingLimit;
      if lo <= hi <= |slice| then slice[lo..hi] else []
  }

  function CodeSlot(b: Bytes, d: CD.Directory, i: nat): Bytes
    requires CD.HashesOk(d, |b|)
  {
    var hashes := CD.CodeHashes(b, d);
    if i * d.hashSize + d.hashSize <= |hashes| then hashes[i * d.hashSize..][..d.hashSize] else []
  }

  /** Every page the directory covers has the hash the directory holds for it. */
  ghost predicate CodeIsValid(hash: CD.Hash, slice: Bytes, b: Bytes, d: CD.Directory)
    requires CD.HashesOk(d, |b|)
  {
    forall i :: 0 <= i < d.codeSlots ==> CodeSlot(b, d, i) == CD.Digest(hash, d, Page(slice, d, i))
  }

  lemma PageIsKept(slice: Bytes, other: Bytes, d: CD.Directory, i: nat)
    requires d.signingLimit <= |slice| == |other| && slice[..d.signingLimit] == other[..d.signingLimit]
    ensures Page(slice, d, i) == Page(other, d, i)
  {
    var size := Bits.Pow2(d.pageSize);
    var lo := i * size;
    var hi := if lo + size < d.signingLimit then lo + size else d.signingLimit;
    if d.pageSize != 0 && lo <= hi {
      assert slice[..d.signingLimit] == slice[0..d.signingLimit] && other[..d.signingLimit] == other[0..d.signingLimit];
      SameSlice(slice, other, 0, d.signingLimit, lo, hi);
    }
  }

  /** Splicing the new signature in keeps the code hashes of every directory exactly
      as valid as they were. */
  lemma CodeStaysValid(g: Signing, v: seq<Blob>, k: nat, slice: Bytes, signature: Bytes)
    requires AllAccepted(g, v) && CD.NoNul(g.team) && k < |v| && IsDirectory(v[k].kind)
    requires g.sliceSize == |slice| && g.signatureOffset + |signature| <= |slice|
    ensures CD.Parse(v[k].bytes).Some? && CD.Parse(Rebuilt(g, v[k]).bytes).Some?
    ensures var b, r := v[k].bytes, Rebuilt(g, v[k]).bytes;
      var d, t := CD.Parse(b).value, CD.Parse(r).value;
      && CD.HashesOk(d, |b|) && CD.HashesOk(t, |r|)
      && (CodeIsValid(g.hash, slice, b, d) <==> CodeIsValid(g.hash, Put(slice, g.signatureOffset, signature), r, t))
  {
    hide CD.Parse, CD.HashesOk, CD.Growth, CD.Slot, CD.NewSlot, Page, Put, Accepts, Rebuilt, AllAccepted, CD.StringAt,
         CD.SameExtras;
    RebuiltFacts(g, v, k);
    var b, r := v[k].bytes, Rebuilt(g, v[k]).bytes;
    var d := CD.Parse(b).value;
    var t := CD.Result(d, g.team, g.teamAlone);
    var spliced := Put(slice, g.signatureOffset, signature);
    PutKeeps(slice, g.signatureOffset, signature, 0, d.signingLimit);
    assert slice[..d.signingLimit] == slice[0..d.signingLimit];
    assert spliced[..d.signingLimit] == spliced[0..d.signingLimit];
    forall i | 0 <= i < d.codeSlots
      ensures CodeSlot(r, t, i) == CodeSlot(b, d, i)
      ensures CD.Digest(g.hash, t, Page(spliced, t, i)) == CD.Digest(g.hash, d, Page(slice, d, i))
    {
      PageIsKept(slice, spliced, d, i);
      SamePage(spliced, d, t, i);
    }
  }

  lemma SamePage(slice: Bytes, d: CD.Directory, t: CD.Directory, i: nat)
    requires d.pageSize == t.pageSize && d.signingLimit == t.signingLimit
    ensures Page(slice, d, i) == Page(slice, t, i)
  {
  }

  /** A directory whose code hashes hold of the slice. */
  ghost predicate DirectoryIsValid(hash: CD.Hash, slice: Bytes, b: Bytes) {
    match CD.Parse(b) case None => false case Some(d) => CD.HashesOk(d, |b|) && CodeIsValid(hash, slice, b, d)
  }

  /** Two signatures have directories of the same types, and each holds of its slice if
      and only if the other of that type does. */
  ghost predicate SameDirectories(hash: CD.Hash, before: Bytes, v: seq<Blob>, after: Bytes, w: seq<Blob>) {
    && (forall b :: b in v && IsDirectory(b.kind) ==> HasKind(w, b.kind))
    && (forall r :: r in w && IsDirectory(r.kind) ==> HasKind(v, r.kind))
    && (forall b, r :: b in v && r in w && b.kind == r.kind && IsDirectory(b.kind) ==>
          (DirectoryIsValid(hash, before, b.bytes) <==> DirectoryIsValid(hash, after, r.bytes)))
  }

  ghost predicate HasKind(v: seq<Blob>, kind: nat) {
    exists b :: b in v && b.kind == kind
  }

  /** A directory of the new signature comes from the one of its type. */
  lemma DirectoryComesFrom(g: Signing, v: seq<Blob>, w: seq<Blob>, r: Blob) returns (k: nat)
    requires AllAccepted(g, v) && CD.NoNul(g.team) && IsNewView(g, v, w) && r in w && IsDirectory(r.kind)
    ensures k < |v| && v[k].kind == r.kind && r == Rebuilt(g, v[k])
  {
    hide Accepts, Rebuilt, Kept, Collected, AllAccepted, DonorBlobs;
    SameBlobsKeep(w, Collected(g, v));
    DonorsAreComponents(g.donor);
    k := CollectedIs(g, v, r);
  }

  lemma DirectoryGoesTo(g: Signing, v: seq<Blob>, w: seq<Blob>, k: nat)
    requires AllAccepted(g, v) && CD.NoNul(g.team) && IsNewView(g, v, w) && k < |v| && IsDirectory(v[k].kind)
    ensures Rebuilt(g, v[k]) in w && HasKind(w, v[k].kind)
  {
    hide Accepts, Rebuilt, Kept, DonorBlobs;
    DirectoriesAreKept(v[k].kind);
    KeptHas(g, v, k);
    SameBlobsKeep(w, Collected(g, v));
    assert Rebuilt(g, v[k]) in Collected(g, v);
  }

  lemma RebuiltIsAsValid(g: Signing, v: seq<Blob>, k: nat, slice: Bytes, signature: Bytes)
    requires AllAccepted(g, v) && CD.NoNul(g.team) && k < |v| && IsDirectory(v[k].kind)
    requires g.sliceSize == |slice| && g.signatureOffset + |signature| <= |slice|
    ensures DirectoryIsValid(g.hash, slice, v[k].bytes) <==>
            DirectoryIsValid(g.hash, Put(slice, g.signatureOffset, signature), Rebuilt(g, v[k]).bytes)
  {
    hide CD.Parse, CD.HashesOk, CodeIsValid, Put, Accepts, Rebuilt, AllAccepted;
    CodeStaysValid(g, v, k, slice, signature);
  }

  /** The directories of a slice with the new signature are as valid as they were. */
  lemma DirectoriesStayValid(g: Signing, v: seq<Blob>, w: seq<Blob>, slice: Bytes, signature: Bytes)
    requires AllAccepted(g, v) && CD.NoNul(g.team) && DistinctKinds(v) && IsNewView(g, v, w)
    requires g.sliceSize == |slice| && g.signatureOffset + |signature| <= |slice|
    ensures SameDirectories(g.hash, slice, v, Put(slice, g.signatureOffset, signature), w)
  {
    hide DirectoryIsValid, Put, Accepts, Rebuilt, AllAccepted, IsNewView, IsDirectory;
    var after := Put(slice, g.signatureOffset, signature);
    forall b | b in v && IsDirectory(b.kind) ensures HasKind(w, b.kind) {
      var k :| 0 <= k < |v| && v[k] == b;
      DirectoryGoesTo(g, v, w, k);
    }
    forall r | r in w && IsDirectory(r.kind) ensures HasKind(v, r.kind) {
      var k := DirectoryComesFrom(g, v, w, r);
      assert v[k] in v;
    }
    forall b, r | b in v && r in w && b.kind == r.kind && IsDirectory(b.kind)
      ensures DirectoryIsValid(g.hash, slice, b.bytes) <==> DirectoryIsValid(g.hash, after, r.bytes)
    {
      var j :| 0 <= j < |v| && v[j] == b;
      var k := DirectoryComesFrom(g, v, w, r);
      assert j == k;
      RebuiltIsAsValid(g, v, k, slice, signature);
    }
  }

  // ----- The slice ---------------------------------------------------------------------------

  const MAX_SIGNATURE: nat := 16 * 1024 * 1024
  const ARM: nat := 12

  /** A slice and what the Mach-O reader says of it. */
  datatype Slice = Slice(bytes: Bytes, reading: M.Reading)

  predicate IsRead(slice: Slice) {
    M.Read(slice.bytes) == Some(slice.reading)
  }

  predicate Usable(slice: Slice) {
    var h, c := slice.reading.header, slice.reading.commands;
    && M.Encrypted(c) && h.is32Bit && h.cpuType == ARM && c.signature.Some?
    && HEADER <= c.signature.value.size <= MAX_SIGNATURE
    && M.RangeFits(c.signature.value.offset, c.signature.value.size, |slice.bytes|)
  }

  /** An encrypted 32-bit ARM slice whose signature has a sensible size. */
  lemma UsableIff(slice: Slice)
    ensures Usable(slice) <==>
            && slice.reading.header.is32Bit && slice.reading.header.cpuType == 0x0c
            && (exists e :: slice.reading.commands.encryption == Some(e) && e.identifier > 0)
            && (exists r :: slice.reading.commands.signature == Some(r)
                  && 12 <= r.size <= 0x100_0000 && r.offset + r.size <= |slice.bytes|)
  {
    if Usable(slice) {
      var e, r := slice.reading.commands.encryption.value, slice.reading.commands.signature.value;
      assert slice.reading.commands.encryption == Some(e) && slice.reading.commands.signature == Some(r);
    }
  }

  function SignatureOf(slice: Slice): Bytes
    requires Usable(slice)
  {
    var range := slice.reading.commands.signature.value;
    slice.bytes[range.offset..range.offset + range.size]
  }

  function EncryptedRange(slice: Slice): M.Range
    requires Usable(slice)
  {
    slice.reading.commands.encryption.value.range
  }

  /** The encrypted bytes, which nobody can change, are the same in both. */
  ghost predicate SameEncrypted(slice: Slice, other: Slice)
    requires Usable(slice) && |other.bytes| == |slice.bytes|
  {
    var range := EncryptedRange(slice);
    forall i :: 0 <= i < |slice.bytes| && range.offset <= i < range.offset + range.size ==>
      other.bytes[i] == slice.bytes[i]
  }

  /** Special slot `slot` of every directory hashes the component packed beside it, or is
      zero where there is none. */
  ghost predicate SlotIsRight(hash: CD.Hash, w: seq<Blob>, b: Blob, slot: nat) {
    match CD.Parse(b.bytes)
    case None => false
    case Some(t) =>
      && CD.HashesOk(t, |b.bytes|) && 1 <= slot <= t.specialSlots
      && CD.Slot(b.bytes, t, slot) == SlotFor(hash, t, Find(w, slot))
  }

  /** The components of a signature are the donor's, and its directories hash them. */
  ghost predicate HoldsDonor(hash: CD.Hash, donor: CD.Donor, w: seq<Blob>) {
    forall slot :: CD.Replaced(slot) ==>
      && Find(w, slot) == CD.Component(donor, slot)
      && forall b :: b in w && IsDirectory(b.kind) ==> SlotIsRight(hash, w, b, slot)
  }

  lemma NewViewHoldsDonor(g: Signing, v: seq<Blob>, w: seq<Blob>)
    requires AllAccepted(g, v) && CD.NoNul(g.team) && IsNewView(g, v, w)
    ensures HoldsDonor(g.hash, g.donor, w)
  {
    hide IsNewView, AllAccepted, CD.Component, IsDirectory, SlotIsRight;
    forall slot | CD.Replaced(slot)
      ensures Find(w, slot) == CD.Component(g.donor, slot)
      ensures forall b :: b in w && IsDirectory(b.kind) ==> SlotIsRight(g.hash, w, b, slot)
    {
      ComponentsAreTheDonors(g, v, w, slot);
      forall b | b in w && IsDirectory(b.kind) ensures SlotIsRight(g.hash, w, b, slot) {
        NewSlotIsRight(g, v, w, b, slot);
      }
    }
  }

  lemma NewSlotIsRight(g: Signing, v: seq<Blob>, w: seq<Blob>, b: Blob, slot: nat)
    requires AllAccepted(g, v) && CD.NoNul(g.team) && IsNewView(g, v, w)
    requires b in w && IsDirectory(b.kind) && CD.Replaced(slot)
    ensures SlotIsRight(g.hash, w, b, slot)
  {
    hide IsNewView, AllAccepted, CD.Component, IsDirectory, CD.Slot, CD.HashesOk, Find;
    DirectoriesMatchComponents(g, v, w, b, slot);
  }

  predicate IsDirectoryType(kind: nat) {
    kind == 0 || kind in {0x1000, 0x1001, 0x1002, 0x1003, 0x1004}
  }

  ghost predicate IsTransformed(g: Signing, b: Bytes, r: Bytes) {
    match CD.Parse(b)
    case None => false
    case Some(d) =>
      CD.HashesOk(d, |b|) && d.flags < WORD && CD.Transformed(g.hash, b, d, g.donor, g.team, g.teamAlone, r)
  }

  /** The new signature in order of type: every directory of the old one transformed, the donor's
      requirements and entitlements, an empty CMS wrapper, and all else of the old one as it was. */
  ghost predicate Reassembled(g: Signing, v: seq<Blob>, w: seq<Blob>) {
    && SortedByKind(w) && Blob(0x10000, [0xfa, 0xde, 0x0b, 0x01, 0, 0, 0, 8]) in w
    && (forall b :: b in v && IsDirectoryType(b.kind) ==>
          exists r :: r in w && r.kind == b.kind && IsTransformed(g, b.bytes, r.bytes))
    && (forall b :: b in v && !IsDirectoryType(b.kind) && b.kind !in {2, 5, 7, 0x10000} ==> b in w)
    && (forall r :: r in w && r.kind == 2 ==> g.donor.requirements == Some(r.bytes))
    && (forall r :: r in w && r.kind == 5 ==> g.donor.entitlements == r.bytes)
    && (forall r :: r in w && r.kind == 7 ==> g.donor.derEntitlements == r.bytes)
    && (forall r :: r in w && r.kind !in {2, 5, 7, 0x10000} ==> HasKind(v, r.kind))
  }

  lemma NewViewIsReassembled(g: Signing, v: seq<Blob>, w: seq<Blob>)
    requires AllAccepted(g, v) && CD.NoNul(g.team) && IsNewView(g, v, w)
    ensures Reassembled(g, v, w)
  {
    hide Accepts, Rebuilt, Kept, Collected, AllAccepted, IsTransformed;
    SameBlobsKeep(w, Collected(g, v));
    WrapperIsCollected(g, v);
    forall b | b in v && IsDirectoryType(b.kind)
      ensures exists r :: r in w && r.kind == b.kind && IsTransformed(g, b.bytes, r.bytes)
    {
      var k :| 0 <= k < |v| && v[k] == b;
      DirectoryGoesTo(g, v, w, k);
      RebuiltIsTransformed(g, v, k);
    }
    forall b | b in v && !IsDirectoryType(b.kind) && b.kind !in {2, 5, 7, 0x10000} ensures b in w {
      var k :| 0 <= k < |v| && v[k] == b;
      OtherIsCollected(g, v, k);
    }
    forall r | r in w
      ensures r.kind == 2 ==> g.donor.requirements == Some(r.bytes)
      ensures r.kind == 5 ==> g.donor.entitlements == r.bytes
      ensures r.kind == 7 ==> g.donor.derEntitlements == r.bytes
      ensures r.kind !in {2, 5, 7, 0x10000} ==> HasKind(v, r.kind)
    {
      CollectedKind(g, v, r);
    }
  }

  lemma RebuiltIsTransformed(g: Signing, v: seq<Blob>, k: nat)
    requires AllAccepted(g, v) && CD.NoNul(g.team) && k < |v| && IsDirectory(v[k].kind)
    ensures Rebuilt(g, v[k]).kind == v[k].kind && IsTransformed(g, v[k].bytes, Rebuilt(g, v[k]).bytes)
  {
    hide CD.Parse, Rebuilt, CD.HashesOk, CD.Transformed, Accepts;
    RebuiltFacts(g, v, k);
  }

  lemma WrapperIsCollected(g: Signing, v: seq<Blob>)
    requires AllAccepted(g, v) && CD.NoNul(g.team)
    ensures Blob(0x10000, [0xfa, 0xde, 0x0b, 0x01, 0, 0, 0, 8]) in Collected(g, v)
  {
    hide Accepts, Kept;
    var d := DonorBlobs(g.donor);
    assert d[|d| - 1] == Blob(0x10000, [0xfa, 0xde, 0x0b, 0x01, 0, 0, 0, 8]);
  }

  lemma OtherIsCollected(g: Signing, v: seq<Blob>, k: nat)
    requires AllAccepted(g, v) && CD.NoNul(g.team) && k < |v|
    requires !IsDirectoryType(v[k].kind) && v[k].kind !in {2, 5, 7, 0x10000}
    ensures v[k] in Collected(g, v)
  {
    hide Accepts, Kept, DonorBlobs;
    KeptHas(g, v, k);
  }

  lemma CollectedKind(g: Signing, v: seq<Blob>, r: Blob)
    requires AllAccepted(g, v) && CD.NoNul(g.team) && r in Collected(g, v)
    ensures r.kind == 2 ==> g.donor.requirements == Some(r.bytes)
    ensures r.kind == 5 ==> g.donor.entitlements == r.bytes
    ensures r.kind == 7 ==> g.donor.derEntitlements == r.bytes
    ensures r.kind !in {2, 5, 7, 0x10000} ==> HasKind(v, r.kind)
  {
    hide Accepts, Kept, Rebuilt, Collected, AllAccepted;
    var k := CollectedIs(g, v, r);
    if r !in DonorBlobs(g.donor) { assert v[k] in v; }
  }

  /** A slice with a new signature: nothing else changed, it reads the same, its new
      signature parses and holds what the donor gave, and its directories are as valid as
      they were. */
  ghost predicate Resigned(g: Signing, slice: Slice, other: Slice)
    requires Usable(slice)
  {
    && IsRead(other) && other.reading == slice.reading && |other.bytes| == |slice.bytes|
    && other.bytes == Put(slice.bytes, slice.reading.commands.signature.value.offset, SignatureOf(other))
    && SameEncrypted(slice, other)
    && Parses(SignatureOf(slice)) && Parses(SignatureOf(other))
    && SameDirectories(g.hash, slice.bytes, View(SignatureOf(slice)), other.bytes, View(SignatureOf(other)))
    && HoldsDonor(g.hash, g.donor, View(SignatureOf(other)))
    && Reassembled(g, View(SignatureOf(slice)), View(SignatureOf(other)))
  }

  /** Re-signs an encrypted slice.  Only the signature's own allocation changes, so that
      the reader still says the same of it and the encrypted pages stay as they were. */
  method ResignSlice(g: Signing, slice: Slice) returns (out: Option<Slice>)
    requires CD.NoNul(g.team) && DonorOk(g.donor) && IsRead(slice)
    requires g.sliceSize == |slice.bytes|
    requires slice.reading.commands.signature.Some? ==>
              g.signatureOffset == slice.reading.commands.signature.value.offset
    ensures out.Some? <==> Usable(slice) && Fits(g, SignatureOf(slice))
    ensures out.Some? ==> Resigned(g, slice, out.value)
    ensures out.Some? ==> IsNewView(g, View(SignatureOf(slice)), View(SignatureOf(out.value)))
  {
    hide Parses, View, IsNewView, DonorOk, M.Read, Put, SameDirectories, SameEncrypted, AllAccepted, HasDirectory,
         HoldsDonor, Reassembled;
    if !Usable(slice) { return None; }
    var signature := NewSignature(g, SignatureOf(slice));
    if signature.None? { return None; }
    var at := slice.reading.commands.signature.value.offset;
    var bytes := Put(slice.bytes, at, signature.value);
    out := Some(slice.(bytes := bytes));
    PutReads(slice.bytes, at, signature.value);
    assert SignatureOf(out.value) == signature.value;
    M.ResignedReadsTheSame(slice.bytes, signature.value);
    EncryptedStays(slice, signature.value);
    ViewIsWellFormed(SignatureOf(slice));
    DirectoriesStayValid(g, View(SignatureOf(slice)), View(signature.value), slice.bytes, signature.value);
    NewViewHoldsDonor(g, View(SignatureOf(slice)), View(signature.value));
    NewViewIsReassembled(g, View(SignatureOf(slice)), View(signature.value));
  }

  lemma EncryptedStays(slice: Slice, signature: Bytes)
    requires IsRead(slice) && Usable(slice) && |signature| == slice.reading.commands.signature.value.size
    ensures var at := slice.reading.commands.signature.value.offset;
            SameEncrypted(slice, slice.(bytes := Put(slice.bytes, at, signature)))
  {
    hide M.Read;
    M.ReadingIsSound(slice.bytes);
  }

  // ----- The donor --------------------------------------------------------------------------

  predicate HasMagic(b: Bytes, magic: nat, least: nat) {
    |b| >= least && |b| >= 4 && Word(b, 0) == magic
  }

  /** The components of a signature, if it has both forms of entitlements. */
  function DonorIn(v: seq<Blob>): Option<CD.Donor> {
    match (Find(v, CD.SLOT_ENTITLEMENTS), Find(v, CD.SLOT_DER_ENTITLEMENTS))
    case (Some(e), Some(d)) => Some(CD.Donor(Find(v, CD.SLOT_REQUIREMENTS), e, d))
    case _ => None
  }

  predicate ComponentsOk(v: seq<Blob>) {
    && DonorIn(v).Some?
    && (Find(v, CD.SLOT_REQUIREMENTS).Some? ==> HasMagic(Find(v, CD.SLOT_REQUIREMENTS).value, 0xfade0c01, 12))
    && HasMagic(DonorIn(v).value.entitlements, 0xfade7171, 9)
    && HasMagic(DonorIn(v).value.derEntitlements, 0xfade7172, 9)
    && (Find(v, CMS_SIGNATURE).Some? ==>
          HasMagic(Find(v, CMS_SIGNATURE).value, 0xfade0b01, 8) && |Find(v, CMS_SIGNATURE).value| == 8)
  }

  predicate SlotsMatch(hash: CD.Hash, b: Bytes, donor: CD.Donor) {
    && CD.SlotMatches(hash, b, donor, CD.SLOT_REQUIREMENTS)
    && CD.SlotMatches(hash, b, donor, CD.SLOT_ENTITLEMENTS)
    && CD.SlotMatches(hash, b, donor, CD.SLOT_DER_ENTITLEMENTS)
  }

  lemma {:induction false} FoundIsIn(v: seq<Blob>, kind: nat)
    ensures Find(v, kind).Some? ==> Blob(kind, Find(v, kind).value) in v
  {
    if v != [] && v[0].kind != kind { FoundIsIn(v[1..], kind); }
  }

  lemma DonorInIsOk(v: seq<Blob>)
    requires DonorIn(v).Some? && forall i :: 0 <= i < |v| ==> WellFormed(v[i])
    ensures DonorOk(DonorIn(v).value)
  {
    hide WellFormed;
    FoundIsIn(v, CD.SLOT_REQUIREMENTS);
    FoundIsIn(v, CD.SLOT_ENTITLEMENTS);
    FoundIsIn(v, CD.SLOT_DER_ENTITLEMENTS);
  }

  /** The signature has the components, and all its directories hash them. */
  ghost predicate GivesDonor(hash: CD.Hash, s: Bytes) {
    && Parses(s) && ComponentsOk(View(s)) && HasDirectory(View(s))
    && forall i :: 0 <= i < |View(s)| && IsDirectory(View(s)[i].kind) ==>
            SlotsMatch(hash, View(s)[i].bytes, DonorIn(View(s)).value)
  }

  lemma FindIff(v: seq<Blob>, kind: nat)
    requires DistinctKinds(v)
    ensures forall x :: Find(v, kind) == Some(x) <==> Blob(kind, x) in v
    ensures Find(v, kind) == None <==> !HasKind(v, kind)
  {
    FoundIsIn(v, kind);
    if b :| b in v && b.kind == kind {
      var i :| 0 <= i < |v| && v[i] == b;
      forall c | c in v && c.kind == kind ensures c == b { var j :| 0 <= j < |v| && v[j] == c; }
      FindIs(v, kind, Some(b.bytes));
    }
  }

  /** A blob of this type is there, it is longer than its header, and begins with `magic`. */
  ghost predicate HasProper(v: seq<Blob>, kind: nat, magic: nat) {
    exists b :: b in v && b.kind == kind && |b.bytes| > 8 && Word(b.bytes, 0) == magic
  }

  /** A directory hashes the blob of this type that lies beside it; without one its slot is
      missing or zero. */
  ghost predicate HashesBeside(hash: CD.Hash, v: seq<Blob>, b: Blob, kind: nat) {
    match CD.Parse(b.bytes)
    case None => false
    case Some(t) =>
      && CD.HashesOk(t, |b.bytes|)
      && (forall c :: c in v && c.kind == kind ==>
            kind <= t.specialSlots && CD.Slot(b.bytes, t, kind) == CD.Digest(hash, t, c.bytes))
      && (!HasKind(v, kind) && kind <= t.specialSlots ==> CD.Slot(b.bytes, t, kind) == Zeros(t.hashSize))
  }

  /** What a signature must hold to be a donor. */
  ghost predicate Complete(hash: CD.Hash, v: seq<Blob>) {
    && HasProper(v, 5, 0xfade7171) && HasProper(v, 7, 0xfade7172)
    && (forall b :: b in v && b.kind == 2 ==> |b.bytes| >= 12 && Word(b.bytes, 0) == 0xfade0c01)
    && (forall b :: b in v && b.kind == 0x10000 ==> |b.bytes| == 8 && Word(b.bytes, 0) == 0xfade0b01)
    && (exists b :: b in v && IsDirectoryType(b.kind))
    && (forall b :: b in v && IsDirectoryType(b.kind) ==>
          HashesBeside(hash, v, b, 2) && HashesBeside(hash, v, b, 5) && HashesBeside(hash, v, b, 7))
  }

  lemma SlotMatchesIff(hash: CD.Hash, v: seq<Blob>, b: Blob, donor: CD.Donor, kind: nat)
    requires DistinctKinds(v) && CD.Component(donor, kind) == Find(v, kind)
    ensures CD.SlotMatches(hash, b.bytes, donor, kind) <==> HashesBeside(hash, v, b, kind)
  {
    hide CD.Component, CD.Parse, CD.Slot, Find;
    FindIff(v, kind);
    if CD.Parse(b.bytes).Some? { ParsedHashesOk(b.bytes); }
    if Find(v, kind).Some? { assert Blob(kind, Find(v, kind).value) in v; }
  }

  lemma ParsedHashesOk(b: Bytes)
    requires CD.Parse(b).Some?
    ensures CD.HashesOk(CD.Parse(b).value, |b|)
  {
  }

  lemma ComponentsIff(v: seq<Blob>)
    requires DistinctKinds(v) && forall i :: 0 <= i < |v| ==> WellFormed(v[i])
    ensures ComponentsOk(v) <==>
            && HasProper(v, 5, 0xfade7171) && HasProper(v, 7, 0xfade7172)
            && (forall b :: b in v && b.kind == 2 ==> |b.bytes| >= 12 && Word(b.bytes, 0) == 0xfade0c01)
            && (forall b :: b in v && b.kind == 0x10000 ==> |b.bytes| == 8 && Word(b.bytes, 0) == 0xfade0b01)
  {
    hide Find, Word;
    FindIff(v, 2);
    FindIff(v, 5);
    FindIff(v, 7);
    FindIff(v, 0x10000);
    forall b | b in v ensures Find(v, b.kind) == Some(b.bytes) {
      assert b == Blob(b.kind, b.bytes);
      FindIff(v, b.kind);
    }
    if Find(v, 5).Some? { assert Blob(5, Find(v, 5).value) in v; }
    if Find(v, 7).Some? { assert Blob(7, Find(v, 7).value) in v; }
    if Find(v, 2).Some? { assert Blob(2, Find(v, 2).value) in v; }
    if Find(v, 0x10000).Some? { assert Blob(0x10000, Find(v, 0x10000).value) in v; }
  }

  /** Exactly which signatures give a donor. */
  lemma GivesDonorIff(hash: CD.Hash, s: Bytes)
    ensures GivesDonor(hash, s) <==> Parses(s) && Complete(hash, View(s))
  {
    hide Parses, View, ComponentsOk, HasProper, HashesBeside, Word, CD.SlotMatches, WellFormed, Find;
    if Parses(s) {
      var v := View(s);
      ViewIsWellFormed(s);
      ComponentsIff(v);
      if ComponentsOk(v) {
        HasDonor(v);
        forall b | b in v && IsDirectory(b.kind)
          ensures SlotsMatch(hash, b.bytes, DonorIn(v).value) <==>
                  HashesBeside(hash, v, b, 2) && HashesBeside(hash, v, b, 5) && HashesBeside(hash, v, b, 7)
        {
          SlotMatchesIff(hash, v, b, DonorIn(v).value, 2);
          SlotMatchesIff(hash, v, b, DonorIn(v).value, 5);
          SlotMatchesIff(hash, v, b, DonorIn(v).value, 7);
        }
        DirectoriesIff(v);
      }
    }
  }

  lemma DirectoriesIff(v: seq<Blob>)
    ensures HasDirectory(v) <==> exists b :: b in v && IsDirectoryType(b.kind)
  {
    if HasDirectory(v) {
      var i :| 0 <= i < |v| && IsDirectory(v[i].kind);
      assert v[i] in v;
    }
  }

  /** Takes the donor's components from a signature, which must hash them in every
      one of its directories. */
  method CreateDonor(hash: CD.Hash, s: Bytes) returns (donor: Option<CD.Donor>)
    ensures donor.Some? <==> GivesDonor(hash, s)
    ensures donor.Some? ==> donor == DonorIn(View(s)) && DonorOk(donor.value)
  {
    hide Parses, View, ComponentsOk, SlotsMatch, IsDirectory, WellFormed, DonorOk;
    var source := Parse(s);
    if source.None? { return None; }
    var v := source.value;
    if !ComponentsOk(v) { return None; }
    donor := DonorIn(v);
    assert donor.Some? by { HasDonor(v); }
    ViewIsWellFormed(s);
    DonorInIsOk(v);
    var directories := 0;
    for i := 0 to |v|
      invariant forall k :: 0 <= k < i && IsDirectory(v[k].kind) ==> SlotsMatch(hash, v[k].bytes, donor.value)
      invariant directories > 0 <==> exists k :: 0 <= k < i && IsDirectory(v[k].kind)
    {
      if IsDirectory(v[i].kind) {
        directories := directories + 1;
        if !SlotsMatch(hash, v[i].bytes, donor.value) { return None; }
      }
    }
    if directories == 0 { return None; }
  }

  lemma HasDonor(v: seq<Blob>)
    requires ComponentsOk(v)
    ensures DonorIn(v).Some?
  {
  }
}
