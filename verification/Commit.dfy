/**
 Installing the rewritten executable: the staged replacement and the target are
 swapped, the swap is checked and if need be undone, and what is left in the
 staging directory is removed.

 Other processes may rename, replace or delete either name between any two of the
 injector's system calls, and any call may fail.  Only an identity check and the
 unlink right behind it are taken as one step.
 */
module Commit {
  import opened Wrappers

  datatype Name = Target | Staged
  type Inode = nat

  /** What `stat` compares: everything but the change time survives a rename. */
  datatype File = File(stable: nat, changed: nat, regular: bool)

  datatype Result = Failed | Succeeded

  /** What was seen of the open files and of the names since a check began. */
  datatype Evidence = Evidence(open: map<Inode, File>, named: map<Name, (Inode, File)>)

  const NOTHING_SEEN := Evidence(map[], map[])

  class Injection {
    const original: Inode
    const replacement: Inode
    /** The target as the injector recorded it at the start, the replacement as it does last. */
    const targetStat: File
    var replacementStat: File

    var names: map<Name, Inode>
    var files: map<Inode, File>
    var holdsOriginal: bool
    var preserve: bool
    /** The inodes whose name the injector has removed, in order. */
    var unlinked: seq<Inode>
    var directoryRemoved: bool
    /** How often the injector has swapped, whether the last attempt was refused, what the
        current check has seen, and what each finished one had. */
    ghost var swaps: nat
    ghost var refused: bool
    ghost var evidence: Evidence
    ghost var checks: seq<Evidence>
    /** Whether, in this run, the other processes leave the two names alone, and whether on top
        of that they leave the files alone and every call works. */
    const calm: bool
    const smooth: bool

    constructor (original: Inode, replacement: Inode, targetStat: File, names: map<Name, Inode>,
                 files: map<Inode, File>, calm: bool, smooth: bool)
      requires original != replacement && (smooth ==> calm)
      ensures Fresh() && this.original == original && this.replacement == replacement && this.targetStat == targetStat
      ensures this.names == names && this.files == files && this.calm == calm && this.smooth == smooth
    {
      this.original, this.replacement, this.calm, this.smooth := original, replacement, calm, smooth;
      this.targetStat, this.replacementStat := targetStat, targetStat;
      this.names, this.files := names, files;
      holdsOriginal, preserve, unlinked, directoryRemoved := false, false, [], false;
      swaps, refused, evidence, checks := 0, false, NOTHING_SEEN, [];
    }

    ghost predicate Fresh()
      reads this
    {
      && original != replacement && (smooth ==> calm) && unlinked == [] && !holdsOriginal && !preserve
      && !directoryRemoved && swaps == 0 && !refused && checks == []
    }

    ghost predicate Holds(target: Inode, staged: Inode)
      reads this`names
    {
      Target in names && names[Target] == target && Staged in names && names[Staged] == staged
    }

    /** Both files are there; the target is as it was recorded. */
    ghost predicate Ready()
      reads this`files
    {
      original in files && replacement in files && files[original] == targetStat && targetStat.regular
      && files[replacement].regular
    }

    // ----- System calls -------------------------------------------------------------------

    /** What the other processes do, and whether the next call works. */
    method Others() returns (works: bool)
      modifies `names, `files
      ensures calm ==> names == old(names)
      ensures smooth && calm ==> works && files == old(files)
    {
      var later: map<Name, Inode> := *;
      if !calm { names := later; }
      if smooth { return true; }
      files := *;
      works := *;
    }

    /** `fstat` on an open file. */
    method StatOpen(i: Inode) returns (r: Option<File>)
      modifies `names, `files, `evidence
      ensures calm ==> names == old(names)
      ensures smooth && calm ==> files == old(files) && (i in files ==> r == Some(files[i]))
      ensures evidence.named == old(evidence).named
      ensures evidence.open == if r.Some? then old(evidence).open[i := r.value] else old(evidence).open
    {
      var works := Others();
      r := if works && i in files then Some(files[i]) else None;
      if r.Some? { evidence := evidence.(open := evidence.open[i := r.value]); }
    }

    /** `fstatat` on a name. */
    method StatName(n: Name) returns (r: Option<(Inode, File)>)
      modifies `names, `files, `evidence
      ensures calm ==> names == old(names)
      ensures smooth && calm ==>
                files == old(files) && (n in names && names[n] in files ==> r == Some((names[n], files[names[n]])))
      ensures r.Some? ==> n in names && names[n] == r.value.0
      ensures evidence.open == old(evidence).open
      ensures evidence.named == if r.Some? then old(evidence).named[n := r.value] else old(evidence).named
    {
      var works := Others();
      r := if works && n in names && names[n] in files then Some((names[n], files[names[n]])) else None;
      if r.Some? { evidence := evidence.(named := evidence.named[n := r.value]); }
    }

    /** `renameatx_np` with RENAME_SWAP: both names must exist. */
    method Swap() returns (ok: bool)
      modifies `names, `files, `swaps, `refused
      ensures swaps == (if ok then old(swaps) + 1 else old(swaps)) && refused == !ok
      ensures calm && !ok ==> names == old(names)
      ensures ok && calm ==> Target in old(names) && Staged in old(names)
      ensures ok && calm ==> names == old(names)[Target := old(names)[Staged]][Staged := old(names)[Target]]
      ensures smooth && calm ==> files == old(files) && (Target in old(names) && Staged in old(names) ==> ok)
    {
      var works := Others();
      refused := true;
      if !works || Target !in names || Staged !in names { return false; }
      names := names[Target := names[Staged]][Staged := names[Target]];
      swaps, refused := swaps + 1, false;
      return true;
    }

    /** The last identity check before an unlink, and the unlink. */
    method UnlinkIf(expected: Inode)
      modifies `names, `files, `unlinked
      ensures unlinked == old(unlinked) || unlinked == old(unlinked) + [expected]
      ensures calm && unlinked == old(unlinked) ==> names == old(names)
      ensures calm && unlinked != old(unlinked) ==>
                Staged in old(names) && old(names)[Staged] == expected && names == old(names) - {Staged}
      ensures smooth && calm && Staged in old(names) && old(names)[Staged] == expected ==>
                unlinked == old(unlinked) + [expected]
    {
      var works := Others();
      if works && Staged in names && names[Staged] == expected {
        names := names - {Staged};
        unlinked := unlinked + [expected];
      }
    }

    /** `unlinkat` with AT_REMOVEDIR: a directory that holds anything stays. */
    method RemoveDirectory()
      modifies `names, `files, `directoryRemoved
      ensures calm ==> names == old(names)
      ensures calm && directoryRemoved && !old(directoryRemoved) ==> Staged !in names
      ensures smooth && calm && Staged !in names ==> directoryRemoved
    {
      var works := Others();
      if works && Staged !in names { directoryRemoved := true; }
    }

    // ----- Checks ---------------------------------------------------------------------------

    /** The same file state; the change time does not count after a rename. */
    static predicate Same(was: File, now: File, renamed: bool) {
      now.stable == was.stable && (renamed || now.changed == was.changed)
    }

    function Recorded(i: Inode): File
      reads this`replacementStat
    {
      if i == original then targetStat else replacementStat
    }

    /** The evidence shows the two files, as recorded, open and under these names. */
    ghost predicate Shows(e: Evidence, target: Inode, staged: Inode, renamed: bool)
      reads this`replacementStat
    {
      && original in e.open && Same(targetStat, e.open[original], renamed)
      && replacement in e.open && Same(replacementStat, e.open[replacement], renamed)
      && Target in e.named && e.named[Target].0 == target && e.named[Target].1.regular
      && Same(Recorded(target), e.named[Target].1, renamed)
      && Staged in e.named && e.named[Staged].0 == staged && e.named[Staged].1.regular
      && Same(Recorded(staged), e.named[Staged].1, renamed)
    }

    /** Before the swap: the replacement is recorded anew, the target must be as at the start. */
    method CheckBefore() returns (ok: bool)
      requires original != replacement
      modifies `names, `files, `evidence, `checks, `replacementStat
      ensures calm ==> names == old(names)
      ensures |checks| == |old(checks)| + 1 && checks[..|old(checks)|] == old(checks)
      ensures ok <==> Shows(checks[|old(checks)|], original, replacement, false)
      ensures calm && ok ==> Holds(original, replacement)
      ensures smooth && calm ==> files == old(files)
      ensures smooth && calm && Ready() && Holds(original, replacement) ==> ok && replacementStat == files[replacement]
    {
      evidence := NOTHING_SEEN;
      ok := CheckStaged();
      if ok { ok := CheckTarget(); }
      checks := checks + [evidence];
    }

    method CheckStaged() returns (ok: bool)
      requires evidence == NOTHING_SEEN
      modifies `names, `files, `evidence, `replacementStat
      ensures calm ==> names == old(names)
      ensures original != replacement ==>
                (ok <==> && replacement in evidence.open && replacementStat == evidence.open[replacement]
                         && Staged in evidence.named && evidence.named[Staged].0 == replacement
                         && evidence.named[Staged].1.regular && Same(replacementStat, evidence.named[Staged].1, false))
      ensures evidence.open.Keys <= {replacement} && evidence.named.Keys <= {Staged}
      ensures ok && calm ==> Staged in names && names[Staged] == replacement
      ensures smooth && calm ==> files == old(files)
      ensures smooth && calm && replacement in files && files[replacement].regular ==>
                (Staged in names && names[Staged] == replacement ==> ok && replacementStat == files[replacement])
    {
      var open := StatOpen(replacement);
      if open.None? { return false; }
      replacementStat := open.value;
      var named := StatName(Staged);
      if named.None? { return false; }
      ok := named.value.1.regular && named.value.0 == replacement && Same(replacementStat, named.value.1, false);
    }

    method CheckTarget() returns (ok: bool)
      requires Target !in evidence.named && original !in evidence.open
      modifies `names, `files, `evidence
      ensures calm ==> names == old(names)
      ensures ok <==> && original in evidence.open && Same(targetStat, evidence.open[original], false)
                      && Target in evidence.named && evidence.named[Target].0 == original
                      && evidence.named[Target].1.regular && Same(targetStat, evidence.named[Target].1, false)
      ensures evidence.open - {original} == old(evidence).open && evidence.named - {Target} == old(evidence).named
      ensures ok && calm ==> Target in names && names[Target] == original
      ensures smooth && calm ==> files == old(files)
      ensures smooth && calm && original in files && files[original] == targetStat && targetStat.regular ==>
                (Target in names && names[Target] == original ==> ok)
    {
      var open := StatOpen(original);
      if open.None? { return false; }
      var named := StatName(Target);
      if named.None? { return false; }
      ok := && named.value.1.regular && Same(targetStat, open.value, false)
            && named.value.0 == original && Same(targetStat, named.value.1, false);
    }

    /** After a swap: both files, open and under their names. */
    method CheckAfter(target: Inode, staged: Inode) returns (ok: bool)
      requires original != replacement
      modifies `names, `files, `evidence, `checks
      ensures calm ==> names == old(names)
      ensures |checks| == |old(checks)| + 1 && checks[..|old(checks)|] == old(checks)
      ensures ok <==> Shows(checks[|old(checks)|], target, staged, true)
      ensures calm && ok ==> Holds(target, staged)
      ensures smooth && calm ==> files == old(files)
      ensures smooth && calm && Ready() && replacementStat == files[replacement] && Holds(target, staged) ==>
                ({target, staged} == {original, replacement} ==> ok)
    {
      evidence := NOTHING_SEEN;
      ok := LookAfter(target, staged);
      checks := checks + [evidence];
    }

    method LookAfter(target: Inode, staged: Inode) returns (ok: bool)
      requires original != replacement && evidence == NOTHING_SEEN
      modifies `names, `files, `evidence
      ensures calm ==> names == old(names)
      ensures ok <==> Shows(evidence, target, staged, true)
      ensures calm && ok ==> Holds(target, staged)
      ensures smooth && calm ==> files == old(files)
      ensures smooth && calm && Ready() && replacementStat == files[replacement] && Holds(target, staged) ==>
                ({target, staged} == {original, replacement} ==> ok)
    {
      var first := StatOpen(original);
      if first.None? { return false; }
      var second := StatOpen(replacement);
      if second.None? { return false; }
      var inStaging := StatName(Staged);
      if inStaging.None? { return false; }
      var inPlace := StatName(Target);
      if inPlace.None? { return false; }
      ok := && inStaging.value.1.regular && inPlace.value.1.regular
            && Same(targetStat, first.value, true) && Same(replacementStat, second.value, true)
            && inStaging.value.0 == staged && Same(Recorded(staged), inStaging.value.1, true)
            && inPlace.value.0 == target && Same(Recorded(target), inPlace.value.1, true);
    }

    // ----- Commit -----------------------------------------------------------------------------

    /** Every decision goes by what the checks saw: nothing is swapped before the first has shown
        both files in place and unchanged, the swap stands exactly if the second shows it, and
        it is undone, if a third allows that, only if the second does not. */
    ghost predicate Followed(result: Result)
      reads this
    {
      && 1 <= |checks| <= 4
      && (swaps > 0 ==> Shows(checks[0], original, replacement, false))
      && (result == Succeeded <==> |checks| == 2 && Shows(checks[1], replacement, original, true))
      && (|checks| == 1 ==> swaps == 0 && !preserve && (!Shows(checks[0], original, replacement, false) || refused))
      && (|checks| == 2 ==> swaps == 1 && Shows(checks[1], replacement, original, true))
      && (|checks| > 2 ==> !Shows(checks[1], replacement, original, true))
      && (|checks| == 3 ==>
            swaps == 1 && preserve && (!Shows(checks[2], replacement, original, true) || refused))
      && (|checks| == 4 ==>
            && swaps == 2 && Shows(checks[2], replacement, original, true)
            && (preserve <==> !Shows(checks[3], original, replacement, true)))
    }

    /** Swap, check, and roll back if the check fails. */
    method SwapIn() returns (result: Result)
      requires Fresh()
      modifies `names, `files, `holdsOriginal, `preserve, `swaps, `refused, `evidence, `checks, `replacementStat
      ensures Followed(result)
      ensures result == Succeeded ==> holdsOriginal && !preserve
      ensures result == Failed && !preserve ==> !holdsOriginal
      ensures calm && old(Holds(original, replacement)) && result == Succeeded ==> Holds(replacement, original)
      ensures calm && old(Holds(original, replacement)) && result == Failed && !preserve ==>
                Holds(original, replacement)
      ensures calm && old(Holds(original, replacement)) && result == Failed && preserve ==>
                Holds(original, replacement) || Holds(replacement, original)
      ensures smooth && old(Ready() && Holds(original, replacement)) ==> result == Succeeded && files == old(files)
    {
      var ready := CheckBefore();
      if !ready { return Failed; }
      var swapped := Swap();
      if !swapped { return Failed; }
      holdsOriginal := true;
      var valid := CheckAfter(replacement, original);
      if !valid {
        RollBack();
        return Failed;
      }
      return Succeeded;
    }

    method RollBack()
      requires holdsOriginal && !preserve && original != replacement && |checks| == 2 && swaps == 1
      modifies `names, `files, `holdsOriginal, `preserve, `swaps, `refused, `evidence, `checks
      ensures 3 <= |checks| <= 4 && checks[..2] == old(checks)
      ensures |checks| == 3 ==>
                swaps == 1 && preserve && (!Shows(checks[2], replacement, original, true) || refused)
      ensures |checks| == 4 ==>
                && swaps == 2 && Shows(checks[2], replacement, original, true)
                && (preserve <==> !Shows(checks[3], original, replacement, true))
      ensures preserve || !holdsOriginal
      ensures calm && old(Holds(replacement, original)) ==>
                Holds(original, replacement) || (preserve && Holds(replacement, original))
    {
      var possible := CheckAfter(replacement, original);
      if !possible { preserve := true; return; }
      var swapped := Swap();
      if !swapped { preserve := true; return; }
      var valid := CheckAfter(original, replacement);
      if !valid { preserve := true; return; }
      holdsOriginal := false;
    }

    /** Removes the staged file if it is the one expected, then the directory. */
    method Clean(identityIsKnown: bool)
      modifies `names, `files, `unlinked, `directoryRemoved, `evidence
      ensures var expected := if holdsOriginal then original else replacement;
        || unlinked == old(unlinked)
        || (!preserve && (holdsOriginal || identityIsKnown) && unlinked == old(unlinked) + [expected])
      ensures preserve ==> directoryRemoved == old(directoryRemoved)
      ensures calm && unlinked == old(unlinked) ==> names == old(names)
      ensures calm && unlinked != old(unlinked) ==>
        && Staged in old(names) && old(names)[Staged] == (if holdsOriginal then original else replacement)
        && names == old(names) - {Staged}
      ensures calm && directoryRemoved && !old(directoryRemoved) ==> Staged !in names
      ensures var expected := if holdsOriginal then original else replacement;
        smooth && calm && !preserve && (holdsOriginal || identityIsKnown) && expected in old(files)
        && old(files)[expected].regular && Staged in old(names) && old(names)[Staged] == expected ==>
          unlinked == old(unlinked) + [expected] && directoryRemoved
    {
      if preserve { return; }
      var expected := if holdsOriginal then original else replacement;
      if holdsOriginal || identityIsKnown {
        var open := StatOpen(expected);
        var named := StatName(Staged);
        if open.Some? && named.Some? && named.value.1.regular && named.value.0 == expected {
          UnlinkIf(expected);
        }
      }
      RemoveDirectory();
    }

    /** The commit and its cleanup.  `built` says that the replacement was written and
        verified; otherwise only the cleanup remains. */
    method Install(built: bool, identityIsKnown: bool) returns (result: Result)
      requires Fresh() && (built ==> identityIsKnown)
      modifies this
      // Whatever others do, the original is unlinked only on success, and then it alone.
      ensures unlinked == [] || unlinked == [if result == Succeeded then original else replacement]
      ensures preserve ==> result == Failed && unlinked == [] && !directoryRemoved
      // Every decision goes by what was seen; without a replacement nothing is touched.
      ensures if built then Followed(result) else result == Failed && swaps == 0 && !preserve
      // Left alone, the target is the replacement on success and the original otherwise,
      // unless the staging directory that holds the original is kept.
      ensures calm && old(Holds(original, replacement)) ==>
        && Target in names
        && (result == Succeeded ==> names[Target] == replacement)
        && (result == Failed ==> names[Target] == original || (preserve && Holds(replacement, original)))
      ensures calm && old(Holds(original, replacement)) && original !in unlinked ==>
        names[Target] == original || (Staged in names && names[Staged] == original)
      ensures calm && directoryRemoved ==> Staged !in names
      // If every call works and nobody interferes, the swap is made and staging is gone.
      ensures smooth && old(Ready() && Holds(original, replacement)) && identityIsKnown ==>
        && (result == Succeeded <==> built) && unlinked == [if built then original else replacement]
        && directoryRemoved && Target in names && names[Target] == if built then replacement else original
    {
      result := Failed;
      if built { result := SwapIn(); }
      Clean(identityIsKnown);
    }
  }
}
