/**
 Injecting the arm64 shim into an executable: the target's slices are read, the
 encrypted ones get a new signature from the shim's, and all are written with the
 shim into one FAT image.
 */
module Injector {
  import opened Wrappers
  import opened BigEndian
  import Bits
  import CD = CodeDirectory
  import F = FatImage
  import M = MachOSlice
  import R = Resign
  import S = SuperBlob

  const ARM64: nat := 0x100000c
  const ARM64_ALL: nat := 0
  const EXECUTE: nat := 2
  const IOS: nat := 2
  const THIN_ALIGN: nat := 14

  /** A slice of an image, and the alignment its table gives it. */
  datatype Found = Found(slice: R.Slice, align: nat)

  /** What the signing is done with. */
  datatype Key = Key(hash: CD.Hash, team: Bytes, teamAlone: bool)

  // ----- Reading an image ------------------------------------------------------------------

  ghost function FoundAt(file: Bytes, i: nat): Found
    requires F.Parses(file) && i < F.Count(file)
  {
    var p := F.ParsedAt(file, i);
    Found(R.Slice(F.SliceOf(file, p.arch), p.reading), p.arch.align)
  }

  /** The slices of a thin or a FAT image. */
  ghost function Slices(file: Bytes): (r: Option<seq<Found>>) {
    if F.FormOf(file).Some? then
      (if F.Parses(file) then Some(seq(F.Count(file), i requires 0 <= i < F.Count(file) => FoundAt(file, i))) else None)
    else
      match M.Read(file) case None => None case Some(r) => Some([Found(R.Slice(file, r), THIN_ALIGN)])
  }

  method ParseImage(file: Bytes) returns (r: Option<seq<Found>>)
    ensures r == Slices(file)
  {
    hide F.Parses, F.FormOf, M.Read, F.ArchAt, F.ArchOk;
    if F.FormOf(file).None? {
      var reading := M.ParseSlice(file);
      return match reading case None => None case Some(x) => Some([Found(R.Slice(file, x), THIN_ALIGN)]);
    }
    var parsed := F.Parse(file);
    if parsed.None? { return None; }
    var found: seq<Found> := [];
    var i := 0;
    while i < |parsed.value|
      invariant 0 <= i == |found| <= |parsed.value|
      invariant forall k :: 0 <= k < i ==> found[k] == FoundAt(file, k)
    {
      var p := parsed.value[i];
      found := found + [Found(R.Slice(F.SliceOf(file, p.arch), p.reading), p.arch.align)];
      i := i + 1;
    }
    assert found == Slices(file).value;
    r := Some(found);
  }

  /** Every slice found is a nonempty one that reads as reported, and no two are of one
      architecture. */
  ghost predicate AllRead(found: seq<Found>) {
    && (forall i :: 0 <= i < |found| ==> R.IsRead(found[i].slice))
    && (forall i, j :: 0 <= i < j < |found| ==> !SameArch(found[i], found[j]))
  }

  predicate SameArch(a: Found, b: Found) {
    var x, y := a.slice.reading.header, b.slice.reading.header;
    x.cpuType == y.cpuType && x.cpuSubtype == y.cpuSubtype
  }

  lemma SlicesAreRead(file: Bytes)
    requires Slices(file).Some?
    ensures Slices(file).value != [] && AllRead(Slices(file).value)
  {
    hide F.FormOf, M.Read, F.ArchAt, F.SliceOf;
    var found := Slices(file).value;
    if F.FormOf(file).Some? {
      forall i | 0 <= i < |found|
        ensures R.IsRead(found[i].slice) && found[i].slice.reading.header.cpuType == F.ArchAt(file, i).cpuType
        && found[i].slice.reading.header.cpuSubtype == F.ArchAt(file, i).cpuSubtype
      {
        assert F.ArchOk(file, F.ArchAt(file, i));
      }
      forall i, j | 0 <= i < j < |found| ensures !SameArch(found[i], found[j]) {
        assert !F.Clash(F.ArchAt(file, i), F.ArchAt(file, j));
      }
    }
  }

  // ----- What can be injected ---------------------------------------------------------------

  /** A 32-bit ARM executable in this byte order. */
  predicate IsTarget(r: M.Reading) {
    r.header.cpuType == R.ARM && r.header.fileType == EXECUTE && !r.header.swapped
  }

  /** The signed arm64 shim: a generic one, whatever its capability bits. */
  predicate IsShim(r: M.Reading) {
    && r.header.cpuType == ARM64 && r.header.cpuSubtype % 0x100_0000 == ARM64_ALL && r.header.fileType == EXECUTE
    && !r.header.swapped && !r.header.is32Bit
    && !M.Encrypted(r.commands) && r.commands.signature.Some? && r.commands.build.Some?
  }

  /** The SDK the guest was built with; zero if it does not say. */
  function Sdk(r: M.Reading): nat {
    match (r.commands.minimumSDK, r.commands.build)
    case (Some(sdk), _) => sdk
    case (None, Some(build)) => if build.platform == IOS then build.sdk else 0
    case (None, None) => 0
  }

  /** The SDK in plain terms: that of the minimum version, else that of an iOS build version, else zero. */
  ghost predicate BuiltWith(c: M.Commands, sdk: nat) {
    || c.minimumSDK == Some(sdk)
    || (c.minimumSDK.None? && c.build.Some? && c.build.value.platform == 2 && sdk == c.build.value.sdk)
    || (c.minimumSDK.None? && (c.build.None? || c.build.value.platform != 2) && sdk == 0)
  }

  /** ARM executables in this byte order, built with that SDK. */
  ghost predicate AllBuiltWith(found: seq<Found>, sdk: nat) {
    forall i :: 0 <= i < |found| ==>
      && BuiltWith(found[i].slice.reading.commands, sdk)
      && found[i].slice.reading.header.cpuType == 0x0c && found[i].slice.reading.header.fileType == 2
      && !found[i].slice.reading.header.swapped
  }

  lemma TargetsIff(found: seq<Found>)
    requires found != []
    ensures AllTargets(found) <==> exists sdk :: AllBuiltWith(found, sdk)
  {
    forall i, sdk | 0 <= i < |found|
      ensures BuiltWith(found[i].slice.reading.commands, sdk) <==> sdk == Sdk(found[i].slice.reading)
    {
    }
    if AllTargets(found) { assert AllBuiltWith(found, Sdk(found[0].slice.reading)); }
  }

  /** A signed, unencrypted arm64 executable with a build version. */
  ghost predicate IsGenericShim(r: M.Reading) {
    && r.header.cpuType == 0x100000c && r.header.cpuSubtype % 0x100_0000 == 0 && r.header.fileType == 2
    && !r.header.swapped && !r.header.is32Bit && r.commands.signature.Some? && r.commands.build.Some?
    && (r.commands.encryption.None? || r.commands.encryption.value.identifier == 0)
  }

  lemma ShimIff(r: M.Reading)
    ensures IsShim(r) <==> IsGenericShim(r)
  {
  }

  predicate AllTargets(found: seq<Found>) {
    forall i :: 0 <= i < |found| ==>
      IsTarget(found[i].slice.reading) && Sdk(found[i].slice.reading) == Sdk(found[0].slice.reading)
  }

  predicate AnyEncrypted(found: seq<Found>) {
    exists i :: 0 <= i < |found| && M.Encrypted(found[i].slice.reading.commands)
  }

  function SigningFor(key: Key, donor: CD.Donor, slice: R.Slice): R.Signing {
    var at := match slice.reading.commands.signature case Some(range) => range.offset case None => 0;
    R.Signing(key.hash, donor, key.team, |slice.bytes|, at, key.teamAlone)
  }

  ghost predicate CanResign(key: Key, donor: CD.Donor, slice: R.Slice)
    requires CD.NoNul(key.team)
  {
    R.Usable(slice) && R.Fits(SigningFor(key, donor, slice), R.SignatureOf(slice))
  }

  ghost predicate AllCanResign(key: Key, donor: CD.Donor, found: seq<Found>)
    requires CD.NoNul(key.team)
  {
    forall i :: 0 <= i < |found| && M.Encrypted(found[i].slice.reading.commands) ==>
      CanResign(key, donor, found[i].slice)
  }

  function ShimSignature(shim: Bytes): Bytes {
    match M.Read(shim)
    case Some(r) =>
      (match r.commands.signature
       case Some(range) =>
         if M.RangeFits(range.offset, range.size, |shim|) then shim[range.offset..range.offset + range.size] else []
       case None => [])
    case None => []
  }

  /** What encrypted slices get from the shim's signature. */
  ghost function DonorFor(found: seq<Found>, shim: Bytes): Option<CD.Donor> {
    if AnyEncrypted(found) && S.Parses(ShimSignature(shim)) then R.DonorIn(S.View(ShimSignature(shim))) else None
  }

  /** What an output slice of the image looks like before any signature is replaced. */
  function Bare(f: Found): F.Output {
    var h := f.slice.reading.header;
    F.Output(f.slice.bytes, None, h.cpuType, h.cpuSubtype, h.fileType, f.align, !h.is32Bit,
             M.Encrypted(f.slice.reading.commands))
  }

  function AllBare(found: seq<Found>): (r: seq<F.Output>)
    ensures |r| == |found| && forall i :: 0 <= i < |found| ==> r[i] == Bare(found[i])
  {
    seq(|found|, i requires 0 <= i < |found| => Bare(found[i]))
  }

  /** The target holds nothing but ARM executables of one SDK, the shim is a signed arm64
      executable, the encrypted slices can be re-signed, and all fit a FAT32 table. */
  ghost predicate Injectable(target: Bytes, shim: Bytes, shimAlign: nat, key: Key)
    requires CD.NoNul(key.team)
  {
    && Slices(target).Some? && |Slices(target).value| <= 4 && (exists sdk :: AllBuiltWith(Slices(target).value, sdk))
    && M.Read(shim).Some? && IsGenericShim(M.Read(shim).value)
    && (AnyEncrypted(Slices(target).value) ==>
          && S.Parses(ShimSignature(shim)) && R.Complete(key.hash, S.View(ShimSignature(shim)))
          && R.DonorIn(S.View(ShimSignature(shim))).Some?
          && AllCanResign(key, R.DonorIn(S.View(ShimSignature(shim))).value, Slices(target).value))
    && LaysOut(Slices(target).value, Found(R.Slice(shim, M.Read(shim).value), shimAlign))
  }

  ghost predicate LaysOut(found: seq<Found>, shim: Found) {
    exists offsets :: F.LaidOutAs(AllBare(found) + [Bare(shim)], offsets)
  }

  // ----- The outputs ---------------------------------------------------------------------------

  /** The output for a slice: the slice itself, or with a new signature if encrypted. */
  ghost predicate OutputFor(key: Key, donor: Option<CD.Donor>, f: Found, o: F.Output) {
    && o == Bare(f).(replacement := o.replacement) && F.ReplacementFits(o)
    && (if M.Encrypted(f.slice.reading.commands)
        then && R.Usable(f.slice) && donor.Some?
             && R.Resigned(SigningFor(key, donor.value, f.slice), f.slice, R.Slice(F.Contents(o), f.slice.reading))
        else o.replacement.None?)
  }

  lemma OutputReads(key: Key, donor: Option<CD.Donor>, f: Found, o: F.Output)
    requires R.IsRead(f.slice) && OutputFor(key, donor, f, o)
    ensures M.Read(F.Contents(o)) == Some(f.slice.reading) && F.ReadsAsDeclared(o)
  {
    hide M.Read, R.Usable, R.SameEncrypted, R.SameDirectories, Put;
  }

  method MakeOutput(key: Key, donor: Option<CD.Donor>, f: Found) returns (r: Option<F.Output>)
    requires CD.NoNul(key.team) && R.IsRead(f.slice)
    requires M.Encrypted(f.slice.reading.commands) ==> donor.Some? && R.DonorOk(donor.value)
    ensures r.Some? <==> (M.Encrypted(f.slice.reading.commands) ==> CanResign(key, donor.value, f.slice))
    ensures r.Some? ==> OutputFor(key, donor, f, r.value)
  {
    hide M.Read, R.Fits, R.SameEncrypted, R.SameDirectories, Put, R.DonorOk, S.Parses, S.View, R.IsNewView;
    if !M.Encrypted(f.slice.reading.commands) { return Some(Bare(f)); }
    var signed := R.ResignSlice(SigningFor(key, donor.value, f.slice), f.slice);
    if signed.None? { return None; }
    var at := f.slice.reading.commands.signature.value.offset;
    var o := Bare(f).(replacement := Some(F.Replacement(at, R.SignatureOf(signed.value))));
    assert R.Slice(F.Contents(o), f.slice.reading) == signed.value;
    return Some(o);
  }

  ghost predicate OutputsFor(key: Key, donor: Option<CD.Donor>, found: seq<Found>, outs: seq<F.Output>) {
    |outs| == |found| && forall i :: 0 <= i < |found| ==> OutputFor(key, donor, found[i], outs[i])
  }

  method MakeOutputs(key: Key, donor: Option<CD.Donor>, found: seq<Found>) returns (r: Option<seq<F.Output>>)
    requires CD.NoNul(key.team) && AllRead(found)
    requires AnyEncrypted(found) ==> donor.Some? && R.DonorOk(donor.value)
    ensures r.Some? <==> (AnyEncrypted(found) ==> AllCanResign(key, donor.value, found))
    ensures r.Some? ==> OutputsFor(key, donor, found, r.value)
  {
    hide OutputFor, CanResign, R.DonorOk, R.IsRead, M.Encrypted;
    var outs: seq<F.Output> := [];
    var i := 0;
    while i < |found|
      invariant 0 <= i == |outs| <= |found|
      invariant forall k :: 0 <= k < i ==> OutputFor(key, donor, found[k], outs[k])
      invariant forall k :: 0 <= k < i && M.Encrypted(found[k].slice.reading.commands) ==>
                  CanResign(key, donor.value, found[k].slice)
    {
      var o := MakeOutput(key, donor, found[i]);
      if o.None? { return None; }
      outs := outs + [o.value];
      i := i + 1;
    }
    r := Some(outs);
  }

  lemma OutputsAreSensible(key: Key, donor: Option<CD.Donor>, found: seq<Found>, outs: seq<F.Output>, shim: Found)
    requires AllRead(found) && OutputsFor(key, donor, found, outs) && AllTargets(found)
    requires R.IsRead(shim.slice) && IsShim(shim.slice.reading)
    ensures F.Sensible(outs + [Bare(shim)])
    ensures forall i :: 0 <= i < |found| ==> M.Read(F.Contents(outs[i])) == Some(found[i].slice.reading)
  {
    hide M.Read, F.ReadsAsDeclared, R.Resigned, R.Usable, F.Contents, M.Encrypted;
    var all := outs + [Bare(shim)];
    forall i | 0 <= i < |found|
      ensures F.ReadsAsDeclared(outs[i]) && M.Read(F.Contents(outs[i])) == Some(found[i].slice.reading)
    {
      OutputReads(key, donor, found[i], outs[i]);
    }
    ShimReads(shim);
    forall i, j | 0 <= i < j < |all|
      ensures all[i].cpuType != all[j].cpuType || all[i].cpuSubtype != all[j].cpuSubtype
    {
      if j < |found| { assert !SameArch(found[i], found[j]); }
    }
  }

  lemma ShimReads(shim: Found)
    requires R.IsRead(shim.slice)
    ensures F.ReadsAsDeclared(Bare(shim)) && M.Read(F.Contents(Bare(shim))) == Some(shim.slice.reading)
  {
    hide M.Read;
  }

  /** Where slices go depends on their sizes and alignments only. */
  lemma {:induction false} PlaceIgnoresContents(a: seq<F.Output>, b: seq<F.Output>, end: nat)
    requires |a| == |b| && forall i :: 0 <= i < |a| ==>
              |a[i].source| == |b[i].source| && a[i].sourceAlign == b[i].sourceAlign
    ensures F.Place(a, end) == F.Place(b, end)
    decreases |a|
  {
    hide Bits.AlignUp, Bits.Pow2;
    if a != [] {
      match F.PlaceOne(a[0], end)
      case None =>
      case Some(offset) => PlaceIgnoresContents(a[1..], b[1..], offset + |a[0].source|);
    }
  }

  // ----- Injecting --------------------------------------------------------------------------------

  /** A slice of the new image beside the slice of the target it comes from. */
  ghost predicate Carries(key: Key, donor: Option<CD.Donor>, f: Found, g: Found) {
    && R.IsRead(g.slice) && g.slice.reading == f.slice.reading && g.align == (if f.align < 14 then 14 else f.align)
    && (if M.Encrypted(f.slice.reading.commands)
        then R.Usable(f.slice) && donor.Some? && R.Resigned(SigningFor(key, donor.value, f.slice), f.slice, g.slice)
        else g.slice == f.slice)
  }

  /** The new image parses into the shim and, behind it, the target's slices in order. */
  ghost predicate IsInjected(key: Key, donor: Option<CD.Donor>, found: seq<Found>, shim: Found, file: Bytes) {
    && Slices(file).Some? && |Slices(file).value| == |found| + 1
    && Slices(file).value[0] == shim.(align := if shim.align < 14 then 14 else shim.align)
    && forall i :: 0 <= i < |found| ==> Carries(key, donor, found[i], Slices(file).value[i + 1])
  }

  /** The slice the image describes at place d. */
  lemma FoundInImage(outs: seq<F.Output>, offsets: seq<nat>, file: Bytes, d: nat)
    requires F.IsImage(outs, offsets, file) && d < |outs|
    ensures F.Index(d, |outs| - 1) < |outs| && F.ReplacementFits(outs[F.Index(d, |outs| - 1)])
    ensures var o := outs[F.Index(d, |outs| - 1)];
      && FoundAt(file, d).align == F.Align(o) && FoundAt(file, d).slice.bytes == F.Contents(o)
      && R.IsRead(FoundAt(file, d).slice)
  {
    hide M.Read, F.ArchAt, F.Contents, F.Framed, F.Align;
    var i := F.Index(d, |outs| - 1);
    assert F.SliceIn(outs, offsets, file, i);
    assert F.ArchAt(file, d) == F.ArchOf(outs[i], offsets[i]);
    assert F.ArchOk(file, F.ArchAt(file, d));
  }

  lemma ImageIsInjected(key: Key, donor: Option<CD.Donor>, found: seq<Found>, outs: seq<F.Output>, shim: Found,
      offsets: seq<nat>, file: Bytes)
    requires AllRead(found) && OutputsFor(key, donor, found, outs) && R.IsRead(shim.slice)
    requires F.IsImage(outs + [Bare(shim)], offsets, file)
    ensures IsInjected(key, donor, found, shim, file)
  {
    hide M.Read, F.ArchAt, F.ArchOk, F.Framed, F.SliceIn, R.Resigned, R.Usable, FoundAt, F.FormOf, M.Encrypted;
    var all, n := outs + [Bare(shim)], |outs|;
    ImageIsFat(all, offsets, file);
    FoundInImage(all, offsets, file, 0);
    ShimReads(shim);
    assert all[n] == Bare(shim);
    forall i | 0 <= i < n ensures Carries(key, donor, found[i], Slices(file).value[i + 1]) {
      FoundInImage(all, offsets, file, i + 1);
      assert all[i] == outs[i];
      OutputReads(key, donor, found[i], outs[i]);
      CarriesOver(key, donor, found[i], outs[i], FoundAt(file, i + 1));
    }
  }

  lemma ImageIsFat(outs: seq<F.Output>, offsets: seq<nat>, file: Bytes)
    requires F.IsImage(outs, offsets, file)
    ensures F.FormOf(file).Some?
  {
  }

  lemma CarriesOver(key: Key, donor: Option<CD.Donor>, f: Found, o: F.Output, g: Found)
    requires OutputFor(key, donor, f, o) && M.Read(F.Contents(o)) == Some(f.slice.reading)
    requires R.IsRead(g.slice) && g.slice.bytes == F.Contents(o) && g.align == F.Align(o)
    ensures Carries(key, donor, f, g)
  {
    hide M.Read, R.Resigned, R.Usable;
    assert g.slice == R.Slice(F.Contents(o), f.slice.reading);
  }

  /** Injects the shim.  It is refused exactly when the target, the shim or the layout does
      not allow it; otherwise the new image parses into the shim and the target's slices,
      the encrypted ones with a new signature whose directories hold exactly where the old
      ones did. */
  method Inject(target: Bytes, shim: Bytes, shimAlign: nat, key: Key, chunk: nat) returns (r: Option<Bytes>)
    requires CD.NoNul(key.team) && chunk > 0
    ensures r.Some? <==> Injectable(target, shim, shimAlign, key)
    ensures r.Some? ==>
      var found := Slices(target).value;
      IsInjected(key, DonorFor(found, shim), found, Found(R.Slice(shim, M.Read(shim).value), shimAlign), r.value)
  {
    hide M.Read, Slices, AllCanResign, R.GivesDonor, IsInjected, AllRead, OutputsFor, F.IsImage, F.Sensible, F.Place,
         R.DonorOk, IsShim, IsGenericShim, AllTargets, AllBuiltWith, R.Complete, S.View, R.DonorIn, ShimSignature,
         F.LaidOutAs;
    var image := ParseImage(target);
    if image.None? { return None; }
    var found := image.value;
    SlicesAreRead(target);
    TargetsIff(found);
    if |found| >= F.MAX_SLICES || !AllTargets(found) { return None; }
    var reading := M.ParseSlice(shim);
    if reading.Some? { ShimIff(reading.value); }
    R.GivesDonorIff(key.hash, ShimSignature(shim));
    if reading.None? || !IsShim(reading.value) { return None; }
    var last := Found(R.Slice(shim, reading.value), shimAlign);
    var donor := None;
    if AnyEncrypted(found) {
      donor := R.CreateDonor(key.hash, ShimSignature(shim));
      if donor.None? { return None; }
      DonorParses(key.hash, ShimSignature(shim));
    }
    assert donor == DonorFor(found, shim);
    var outs := MakeOutputs(key, donor, found);
    if outs.None? { return None; }
    OutputsAreSensible(key, donor, found, outs.value, last);
    SamePlaces(key, donor, found, outs.value, last);
    var built := F.BuildImage(outs.value, Bare(last), chunk);
    if built.None? { return None; }
    ImageIsInjected(key, donor, found, outs.value, last, built.value.1, built.value.0);
    return Some(built.value.0);
  }

  lemma DonorParses(hash: CD.Hash, s: Bytes)
    requires R.GivesDonor(hash, s)
    ensures S.Parses(s)
  {
  }

  lemma SamePlaces(key: Key, donor: Option<CD.Donor>, found: seq<Found>, outs: seq<F.Output>, shim: Found)
    requires OutputsFor(key, donor, found, outs)
    ensures |outs| == |found|
    ensures (exists offsets :: F.LaidOutAs(outs + [Bare(shim)], offsets)) <==> LaysOut(found, shim)
  {
    hide F.Place, R.Resigned, R.Usable, F.Contents;
    var a, b := outs + [Bare(shim)], AllBare(found) + [Bare(shim)];
    forall i | 0 <= i < |a| ensures |a[i].source| == |b[i].source| && a[i].sourceAlign == b[i].sourceAlign {
      assert i < |found| ==> OutputFor(key, donor, found[i], outs[i]);
    }
    PlaceIgnoresContents(a, b, F.HEADER + F.ENTRY * (|outs| + 1));
    F.LaidOutIff(a);
    F.LaidOutIff(b);
  }

  // ----- An example ------------------------------------------------------------------------------------

  lemma SmallPlaces(a: F.Output, b: F.Output)
    requires |a.source| == 36 && |b.source| == 145 && a.sourceAlign == b.sourceAlign == 14
    ensures F.Place([a] + [b], F.HEADER + F.ENTRY * 2) == Some([0x4000, 0x8000])
  {
    hide F.PlaceOne;
    SmallPlace(a, 48, 0x4000);
    SmallPlace(b, 0x4024, 0x8000);
    assert ([a] + [b])[1..] == [b] && [b][1..] == [];
    assert [0x8000] + [] == [0x8000];
    assert F.Place([b], 0x4024) == Some([0x8000]);
    assert [0x4000] + [0x8000] == [0x4000, 0x8000];
  }

  lemma SmallPlace(o: F.Output, end: nat, offset: nat)
    requires |o.source| < 0x1000 && o.sourceAlign == 14 && offset < 0x10000
    requires end <= offset < end + 0x4000 && offset % 0x4000 == 0
    ensures F.PlaceOne(o, end) == Some(offset)
  {
    FourteenthPower();
    Bits.AlignUpIsLeast(end, 0x4000, offset);
    assert Bits.AlignUp(end, 0x4000) == offset;
  }

  lemma FourteenthPower()
    ensures Bits.Pow2(14) == 0x4000
  {
    assert Bits.Pow2(4) == 16;
    assert Bits.Pow2(8) == 256;
    assert Bits.Pow2(12) == 4096;
  }

  lemma SmallSlices()
    ensures var target := M.SMALL_HEADER + M.SMALL_TABLE;
      Slices(target) == Some([Found(R.Slice(target, M.Reading(M.SMALL_READING, M.NO_COMMANDS)), THIN_ALIGN)])
  {
    hide M.Read;
    var target := M.SMALL_HEADER + M.SMALL_TABLE;
    M.SmallSliceReads();
    assert M.Native(target, 0, true) == 0xcefaedfe && M.Native(target, 0, false) == 0xfeedface;
    assert F.FormOf(target).None?;
  }

  /** Some targets and shims can be injected: a small ARM executable, say, and a small shim. */
  lemma SmallIsInjectable(key: Key)
    requires CD.NoNul(key.team)
    ensures Injectable(M.SMALL_HEADER + M.SMALL_TABLE, M.SmallShim(), 14, key)
  {
    hide M.Read, M.SmallShim, Slices, AllCanResign, R.GivesDonor, LaysOut;
    var target, shim := M.SMALL_HEADER + M.SMALL_TABLE, M.SmallShim();
    SmallSlices();
    M.SmallShimReads();
    assert AllBuiltWith(Slices(target).value, 0);
    SmallLaysOut(Slices(target).value, Found(R.Slice(shim, M.Read(shim).value), 14));
  }

  lemma SmallLaysOut(found: seq<Found>, last: Found)
    requires |found| == 1 && |found[0].slice.bytes| == 36 && found[0].align == 14
    requires last.slice.bytes == M.SmallShim() && last.align == 14
    ensures LaysOut(found, last)
  {
    hide F.Place, M.SmallShim, F.LaidOutAs;
    ShimIsLong();
    F.LaidOutIff(AllBare(found) + [Bare(last)]);
    assert AllBare(found) == [Bare(found[0])];
    SmallPlaces(Bare(found[0]), Bare(last));
  }

  lemma ShimIsLong()
    ensures |M.SmallShim()| == 145
  {
  }
}
