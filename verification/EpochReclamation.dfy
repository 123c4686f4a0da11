/**
 Epoch-based reclamation of guest memory backings.

 Guest threads read the fast page table without a lock, so a backing whose last
 reference has gone may still be in use through a pointer that was loaded
 earlier.  A thread is a participant: it enters a guard before it runs guest code
 and leaves it afterwards, and guards nest.  Retiring a backing advances the
 global epoch; the backing is unmapped only when every active participant entered
 its outermost guard at or after the retirement.

 `Epochs` is the whole protocol state as a value.  Two of its parts are
 observations that no code reads: `published` is the set of backings the page
 table currently points into, and `exposed[t]` is everything that was published
 at some moment of the outermost guard `t` is in, that is, everything `t` could
 have loaded a pointer into.  `EpochDomain` is the imperative form.
 */
module EpochReclamation {
  type BackingId = nat
  type ThreadId = nat

  datatype Participant = Participant(epoch: nat, activeDepth: nat)
  datatype Retired = Retired(backing: BackingId, retirementEpoch: nat)

  datatype Epochs = Epochs(
    epoch: nat,
    participants: map<ThreadId, Participant>,
    retired: seq<Retired>,
    unmapped: seq<BackingId>,
    published: set<BackingId>,
    exposed: map<ThreadId, set<BackingId>>)

  const INITIAL := Epochs(1, map[], [], [], {}, map[])

  // ----- The reclamation scan ------------------------------------------------

  predicate Blocks(p: Participant, r: Retired) {
    p.activeDepth != 0 && p.epoch < r.retirementEpoch
  }

  predicate Blocked(ps: map<ThreadId, Participant>, r: Retired) {
    exists t | t in ps :: Blocks(ps[t], r)
  }

  function Kept(ps: map<ThreadId, Participant>, rs: seq<Retired>): seq<Retired> {
    if rs == [] then []
    else (if Blocked(ps, rs[0]) then [rs[0]] else []) + Kept(ps, rs[1..])
  }

  function Freed(ps: map<ThreadId, Participant>, rs: seq<Retired>): seq<BackingId> {
    if rs == [] then []
    else (if Blocked(ps, rs[0]) then [] else [rs[0].backing]) + Freed(ps, rs[1..])
  }

  function Reclaimed(e: Epochs): Epochs {
    e.(retired := Kept(e.participants, e.retired),
       unmapped := e.unmapped + Freed(e.participants, e.retired))
  }

  // ----- Steps of the protocol -------------------------------------------------

  datatype Action =
    | Register(t: ThreadId)
    | Unregister(t: ThreadId)
    | Enter(t: ThreadId)
    | Exit(t: ThreadId)
    | Republish(s: set<BackingId>)
    | Retire(b: BackingId)

  ghost predicate Dead(e: Epochs, b: BackingId) {
    b in e.unmapped || exists r :: r in e.retired && r.backing == b
  }

  /** What the source asserts of its callers, and, for the last two, the
      unpublish-before-release discipline of the memory operations. */
  ghost predicate Enabled(e: Epochs, a: Action) {
    match a
    case Register(t) => true
    case Unregister(t) => t in e.participants ==> e.participants[t].activeDepth == 0
    case Enter(t) => t in e.participants
    case Exit(t) => t in e.participants && e.participants[t].activeDepth != 0
    case Republish(s) => forall b :: b in s ==> !Dead(e, b)
    case Retire(b) => b !in e.published && !Dead(e, b)
  }

  ghost predicate Active(e: Epochs, t: ThreadId) {
    t in e.participants && e.participants[t].activeDepth != 0
  }

  ghost function Apply(e: Epochs, a: Action): Epochs
    requires Enabled(e, a)
    requires e.exposed.Keys == e.participants.Keys
  {
    match a
    case Register(t) =>
      if t in e.participants then e
      else e.(participants := e.participants[t := Participant(e.epoch, 0)], exposed := e.exposed[t := {}])
    case Unregister(t) =>
      if t !in e.participants then e
      else Reclaimed(e.(participants := e.participants - {t}, exposed := e.exposed - {t}))
    case Enter(t) =>
      var p := e.participants[t];
      if p.activeDepth == 0
      then e.(participants := e.participants[t := Participant(e.epoch, 1)], exposed := e.exposed[t := e.published])
      else e.(participants := e.participants[t := p.(activeDepth := p.activeDepth + 1)])
    case Exit(t) =>
      var p := e.participants[t];
      var e' := e.(participants := e.participants[t := p.(activeDepth := p.activeDepth - 1)]);
      if p.activeDepth == 1 then Reclaimed(e'.(exposed := e'.exposed[t := {}])) else e'
    case Republish(s) =>
      e.(published := s,
         exposed := map t | t in e.exposed :: if Active(e, t) then e.exposed[t] + s else e.exposed[t])
    case Retire(b) =>
      Reclaimed(e.(epoch := e.epoch + 1, retired := e.retired + [Retired(b, e.epoch + 1)]))
  }

  // ----- The invariant ----------------------------------------------------------

  ghost predicate StrictlyGrowing(rs: seq<Retired>) {
    forall i, j :: 0 <= i < j < |rs| ==> rs[i].retirementEpoch < rs[j].retirementEpoch
  }

  ghost predicate NoRepeats(ids: seq<BackingId>) {
    forall i, j :: 0 <= i < j < |ids| ==> ids[i] != ids[j]
  }

  ghost predicate DistinctBackings(rs: seq<Retired>) {
    forall i, j :: 0 <= i < j < |rs| ==> rs[i].backing != rs[j].backing
  }

  /** Each backing is retired once and unmapped at most once; epochs grow. */
  ghost predicate Ledger(e: Epochs) {
    && StrictlyGrowing(e.retired)
    && (forall r :: r in e.retired ==> r.retirementEpoch <= e.epoch)
    && DistinctBackings(e.retired)
    && NoRepeats(e.unmapped)
    && (forall r :: r in e.retired ==> r.backing !in e.unmapped)
  }

  ghost predicate Protected(e: Epochs, t: ThreadId, b: BackingId)
    requires t in e.participants
  {
    b !in e.unmapped && forall r :: r in e.retired && r.backing == b ==> Blocks(e.participants[t], r)
  }

  ghost predicate Inv(e: Epochs) {
    && e.exposed.Keys == e.participants.Keys
    && Ledger(e)
    && (forall t :: t in e.participants ==> e.participants[t].epoch <= e.epoch)
    && (forall t :: t in e.participants && e.participants[t].activeDepth == 0 ==> e.exposed[t] == {})
    && (forall b :: b in e.published ==> !Dead(e, b))
    && (forall t :: Active(e, t) ==> e.published <= e.exposed[t])
    && (forall t, b :: t in e.exposed && b in e.exposed[t] ==> Protected(e, t, b))
    // Nothing waits longer than it must: every backing still retired is held up
    // by a participant that entered before its retirement.
    && (forall r :: r in e.retired ==> Blocked(e.participants, r))
  }

  // ----- The scan keeps exactly the blocked entries -----------------------------

  lemma {:induction false} ScanSplits(ps: map<ThreadId, Participant>, rs: seq<Retired>)
    ensures forall r :: r in Kept(ps, rs) <==> r in rs && Blocked(ps, r)
    ensures forall b :: b in Freed(ps, rs) ==> exists r :: r in rs && !Blocked(ps, r) && r.backing == b
    ensures forall r :: r in rs && !Blocked(ps, r) ==> r.backing in Freed(ps, rs)
  {
    if rs != [] {
      var rest := rs[1..];
      ScanSplits(ps, rest);
      assert forall r :: r in rs <==> r == rs[0] || r in rest;
    }
  }

  lemma ScanNothing(ps: map<ThreadId, Participant>)
    ensures Kept(ps, []) == [] && Freed(ps, []) == []
  {
  }

  lemma ScanNext(ps: map<ThreadId, Participant>, rs: seq<Retired>, i: nat)
    requires i < |rs|
    ensures Kept(ps, rs[i..]) == (if Blocked(ps, rs[i]) then [rs[i]] else []) + Kept(ps, rs[i + 1..])
    ensures Freed(ps, rs[i..]) == (if Blocked(ps, rs[i]) then [] else [rs[i].backing]) + Freed(ps, rs[i + 1..])
  {
    hide Blocked;
    assert rs[i..][1..] == rs[i + 1..] && rs[i..][0] == rs[i];
  }

  lemma NoRepeatsAppend(xs: seq<BackingId>, ys: seq<BackingId>)
    requires NoRepeats(xs) && NoRepeats(ys)
    requires forall b :: b in ys ==> b !in xs
    ensures NoRepeats(xs + ys)
  {
    forall i, j | 0 <= i < j < |xs + ys| ensures (xs + ys)[i] != (xs + ys)[j] {
      if i < |xs| <= j { assert ys[j - |xs|] in ys && xs[i] in xs; }
    }
  }

  lemma {:induction false} ScanKeepsDistinct(ps: map<ThreadId, Participant>, rs: seq<Retired>)
    requires DistinctBackings(rs)
    ensures DistinctBackings(Kept(ps, rs)) && NoRepeats(Freed(ps, rs))
    ensures forall r :: r in Kept(ps, rs) ==> r.backing !in Freed(ps, rs)
  {
    if rs != [] {
      var rest := rs[1..];
      ScanSplits(ps, rest);
      ScanKeepsDistinct(ps, rest);
      forall r | r in rest ensures r.backing != rs[0].backing {
        var i :| 0 <= i < |rest| && rest[i] == r;
        assert rs[i + 1] == r;
      }
      NoRepeatsAppend([rs[0].backing], Freed(ps, rest));
    }
  }

  lemma {:induction false} ScanKeepsOrder(ps: map<ThreadId, Participant>, rs: seq<Retired>)
    requires StrictlyGrowing(rs)
    ensures StrictlyGrowing(Kept(ps, rs))
  {
    if rs != [] {
      var rest := rs[1..];
      ScanSplits(ps, rest);
      ScanKeepsOrder(ps, rest);
      forall j | 0 <= j < |Kept(ps, rest)| ensures rs[0].retirementEpoch < Kept(ps, rest)[j].retirementEpoch {
        assert Kept(ps, rest)[j] in rest;
      }
    }
  }

  lemma ReclaimKeepsLedger(e: Epochs)
    requires Ledger(e)
    ensures Ledger(Reclaimed(e))
  {
    ScanSplits(e.participants, e.retired);
    ScanKeepsOrder(e.participants, e.retired);
    ScanKeepsDistinct(e.participants, e.retired);
    forall b | b in Freed(e.participants, e.retired) ensures b !in e.unmapped {
      var r :| r in e.retired && !Blocked(e.participants, r) && r.backing == b;
    }
    NoRepeatsAppend(e.unmapped, Freed(e.participants, e.retired));
  }

  /** A scan may free only what no active participant could hold. */
  lemma ReclaimKeepsInv(e: Epochs)
    requires e.exposed.Keys == e.participants.Keys
    requires Ledger(e)
    requires forall t :: t in e.participants ==> e.participants[t].epoch <= e.epoch
    requires forall t :: t in e.participants && e.participants[t].activeDepth == 0 ==> e.exposed[t] == {}
    requires forall b :: b in e.published ==> !Dead(e, b)
    requires forall t :: Active(e, t) ==> e.published <= e.exposed[t]
    requires forall t, b :: t in e.exposed && b in e.exposed[t] ==> Protected(e, t, b)
    ensures Inv(Reclaimed(e))
  {
    ReclaimKeepsLedger(e);
    ScanSplits(e.participants, e.retired);
  }

  // ----- Every step keeps the invariant ------------------------------------------

  lemma StepKeepsInv(e: Epochs, a: Action)
    requires Inv(e) && Enabled(e, a)
    ensures Inv(Apply(e, a))
  {
    match a
    case Register(t) => RegisterKeepsInv(e, t);
    case Unregister(t) => if t in e.participants { UnregisterKeepsInv(e, t); }
    case Exit(t) => ExitKeepsInv(e, t);
    case Retire(b) => RetireKeepsInv(e, b);
    case Enter(t) => EnterKeepsInv(e, t);
    case Republish(s) =>
  }

  /** A participant that blocks goes on blocking if it is left alone. */
  lemma StillBlocked(ps: map<ThreadId, Participant>, ps': map<ThreadId, Participant>, r: Retired)
    requires Blocked(ps, r)
    requires forall t :: t in ps && Blocks(ps[t], r) ==> t in ps' && Blocks(ps'[t], r)
    ensures Blocked(ps', r)
  {
    var t :| t in ps && Blocks(ps[t], r);
    assert Blocks(ps'[t], r);
  }

  lemma RegisterKeepsInv(e: Epochs, t: ThreadId)
    requires Inv(e)
    ensures Inv(Apply(e, Register(t)))
  {
    var e' := Apply(e, Register(t));
    forall r | r in e'.retired ensures Blocked(e'.participants, r) {
      StillBlocked(e.participants, e'.participants, r);
    }
  }

  lemma UnregisterKeepsInv(e: Epochs, t: ThreadId)
    requires Inv(e) && t in e.participants && e.participants[t].activeDepth == 0
    ensures Inv(Apply(e, Unregister(t)))
  {
    ReclaimKeepsInv(e.(participants := e.participants - {t}, exposed := e.exposed - {t}));
  }

  lemma EnterKeepsInv(e: Epochs, t: ThreadId)
    requires Inv(e) && t in e.participants
    ensures Inv(Apply(e, Enter(t)))
  {
    var e' := Apply(e, Enter(t));
    forall r | r in e'.retired ensures Blocked(e'.participants, r) {
      StillBlocked(e.participants, e'.participants, r);
    }
  }

  lemma ExitKeepsInv(e: Epochs, t: ThreadId)
    requires Inv(e) && Active(e, t)
    ensures Inv(Apply(e, Exit(t)))
  {
    var p := e.participants[t];
    var e' := e.(participants := e.participants[t := p.(activeDepth := p.activeDepth - 1)]);
    if p.activeDepth == 1 {
      ReclaimKeepsInv(e'.(exposed := e'.exposed[t := {}]));
    } else {
      forall r | r in e'.retired ensures Blocked(e'.participants, r) {
        StillBlocked(e.participants, e'.participants, r);
      }
    }
  }

  lemma RetireKeepsInv(e: Epochs, b: BackingId)
    requires Inv(e) && b !in e.published && !Dead(e, b)
    ensures Inv(Apply(e, Retire(b)))
  {
    var r := Retired(b, e.epoch + 1);
    var e' := e.(epoch := e.epoch + 1, retired := e.retired + [r]);
    assert forall q :: q in e'.retired <==> q in e.retired || q == r;
    forall i | 0 <= i < |e.retired| ensures e.retired[i].backing != b {
      assert e.retired[i] in e.retired;
    }
    assert forall c :: c in e'.published ==> !Dead(e', c) && c in e.published;
    ReclaimKeepsInv(e');
  }

  // ----- Safety over whole runs -----------------------------------------------------

  ghost predicate IsRun(states: seq<Epochs>, actions: seq<Action>) {
    && |states| == |actions| + 1
    && states[0] == INITIAL
    && forall i :: 0 <= i < |actions| ==>
         && states[i].exposed.Keys == states[i].participants.Keys
         && Enabled(states[i], actions[i])
         && states[i + 1] == Apply(states[i], actions[i])
  }

  lemma {:induction false} RunKeepsInv(states: seq<Epochs>, actions: seq<Action>, n: nat)
    requires IsRun(states, actions) && n < |states|
    ensures Inv(states[n])
  {
    if n > 0 {
      RunKeepsInv(states, actions, n - 1);
      StepKeepsInv(states[n - 1], actions[n - 1]);
    }
  }

  /** In every run, at every moment, no backing that some participant could have
      loaded a pointer into, since it entered its outermost guard, is unmapped;
      nothing is unmapped twice; and once no participant is active nothing
      retired is left waiting. */
  lemma ReclamationIsSafe(states: seq<Epochs>, actions: seq<Action>, n: nat)
    requires IsRun(states, actions) && n < |states|
    ensures forall t, b :: t in states[n].exposed && b in states[n].exposed[t] ==> b !in states[n].unmapped
    ensures forall b :: b in states[n].published ==> b !in states[n].unmapped
    ensures NoRepeats(states[n].unmapped)
    ensures (forall t :: !Active(states[n], t)) ==> states[n].retired == []
  {
    RunKeepsInv(states, actions, n);
    var e := states[n];
    if (forall t :: !Active(e, t)) && e.retired != [] {
      assert e.retired[0] in e.retired;
      var t :| t in e.participants && Blocks(e.participants[t], e.retired[0]);
      assert Active(e, t);
    }
  }

  /** What a participant could have loaded stays exposed while it is active. */
  lemma StepKeepsExposed(e: Epochs, a: Action, t: ThreadId)
    requires Inv(e) && Enabled(e, a) && Active(e, t) && Active(Apply(e, a), t)
    ensures e.exposed[t] <= Apply(e, a).exposed[t]
  {
    hide Ledger, Protected, Kept, Freed;
  }

  lemma {:induction false} StillExposed(states: seq<Epochs>, actions: seq<Action>, m: nat, n: nat, t: ThreadId)
    requires IsRun(states, actions) && m <= n < |states|
    requires forall i :: m <= i <= n ==> Active(states[i], t)
    ensures t in states[m].exposed && t in states[n].exposed && states[m].exposed[t] <= states[n].exposed[t]
  {
    hide Inv, Apply;
    RunKeepsInv(states, actions, n);
    ExposedHasActive(states[n], t);
    if m < n {
      StillExposed(states, actions, m, n - 1, t);
      RunKeepsInv(states, actions, n - 1);
      StepKeepsExposed(states[n - 1], actions[n - 1], t);
    }
  }

  lemma ExposedHasActive(e: Epochs, t: ThreadId)
    requires Inv(e) && Active(e, t)
    ensures t in e.exposed && e.published <= e.exposed[t]
    ensures forall b :: b in e.exposed[t] ==> b !in e.unmapped
  {
  }

  /** In every run: whatever was published at some moment is not unmapped as long as a
      thread that was active then has been active ever since. */
  lemma HeldIsNotUnmapped(states: seq<Epochs>, actions: seq<Action>, m: nat, n: nat, t: ThreadId, b: BackingId)
    requires IsRun(states, actions) && m <= n < |states|
    requires (forall i :: m <= i <= n ==> Active(states[i], t)) && b in states[m].published
    ensures b !in states[n].unmapped
  {
    hide Inv, Apply;
    RunKeepsInv(states, actions, m);
    RunKeepsInv(states, actions, n);
    ExposedHasActive(states[m], t);
    ExposedHasActive(states[n], t);
    StillExposed(states, actions, m, n, t);
  }

  lemma RunGrows(states: seq<Epochs>, actions: seq<Action>, a: Action)
    requires IsRun(states, actions) && Inv(states[|states| - 1]) && Enabled(states[|states| - 1], a)
    ensures IsRun(states + [Apply(states[|states| - 1], a)], actions + [a])
  {
    hide Apply, Enabled;
    var n := |actions|;
    var later, more := states + [Apply(states[n], a)], actions + [a];
    forall i | 0 <= i < |more|
      ensures later[i].exposed.Keys == later[i].participants.Keys && Enabled(later[i], more[i])
      ensures later[i + 1] == Apply(later[i], more[i])
    {
      if i < n { assert later[i] == states[i] && later[i + 1] == states[i + 1] && more[i] == actions[i]; }
    }
  }

  lemma RetiredNeedsParticipant(e: Epochs)
    requires Inv(e) && e.retired != []
    ensures e.participants != map[]
  {
    assert Blocked(e.participants, e.retired[0]);
  }

  /** What a run has unmapped stays unmapped, and whatever was retired at some
      moment is, at every later one, either still waiting or unmapped. */
  lemma {:induction false} RetiredIsNeverLost(states: seq<Epochs>, actions: seq<Action>, m: nat, n: nat)
    requires IsRun(states, actions) && m <= n < |states|
    ensures states[m].unmapped <= states[n].unmapped
    ensures forall b :: Dead(states[m], b) ==> Dead(states[n], b)
  {
    if m < n {
      RetiredIsNeverLost(states, actions, m, n - 1);
      StepDeaths(states[n - 1], actions[n - 1]);
    }
  }

  /** A backing dies by being retired and by nothing else, and stays dead. */
  lemma StepDeaths(e: Epochs, a: Action)
    requires e.exposed.Keys == e.participants.Keys && Enabled(e, a)
    ensures forall b :: Dead(Apply(e, a), b) <==> Dead(e, b) || a == Retire(b)
  {
    match a
    case Unregister(t) => ScanSplits(e.participants - {t}, e.retired);
    case Exit(t) =>
      var p := e.participants[t];
      ScanSplits(e.participants[t := p.(activeDepth := p.activeDepth - 1)], e.retired);
    case Retire(b) => ScanSplits(e.participants, e.retired + [Retired(b, e.epoch + 1)]);
    case _ =>
  }

  // ----- Who holds a backing up ---------------------------------------------------------

  ghost predicate ActiveThrough(states: seq<Epochs>, m: nat, n: nat, t: ThreadId)
    requires n < |states|
  {
    forall i :: m <= i <= n ==> Active(states[i], t)
  }

  ghost predicate Waits(e: Epochs, b: BackingId) {
    exists r :: r in e.retired && r.backing == b
  }

  /** How many guards of `t` are open after some actions. */
  function Depth(actions: seq<Action>, t: ThreadId): int {
    if actions == [] then 0
    else
      var n := |actions| - 1;
      Depth(actions[..n], t) + if actions[n] == Enter(t) then 1 else if actions[n] == Exit(t) then -1 else 0
  }

  lemma StepCounts(e: Epochs, a: Action, t: ThreadId)
    requires Inv(e) && Enabled(e, a)
    ensures var e' := Apply(e, a);
            var change := if a == Enter(t) then 1 else if a == Exit(t) then -1 else 0;
            && (t in e'.participants ==>
                 e'.participants[t].activeDepth ==
                 change + if t in e.participants then e.participants[t].activeDepth else 0)
            && (t !in e'.participants && t in e.participants ==> e.participants[t].activeDepth == 0 == change)
            && (t !in e'.participants && t !in e.participants ==> change == 0)
  {
    hide Ledger, Protected, Kept, Freed;
  }

  /** In every run a thread is active if and only if it has entered more guards than it left. */
  lemma {:induction false} ActiveIff(states: seq<Epochs>, actions: seq<Action>, n: nat, t: ThreadId)
    requires IsRun(states, actions) && n < |states|
    ensures Active(states[n], t) <==> Depth(actions[..n], t) > 0
    ensures Depth(actions[..n], t) == if t in states[n].participants then states[n].participants[t].activeDepth else 0
  {
    hide Apply, Enabled;
    if n > 0 {
      ActiveIff(states, actions, n - 1, t);
      RunKeepsInv(states, actions, n - 1);
      StepCounts(states[n - 1], actions[n - 1], t);
      assert actions[..n][..n - 1] == actions[..n - 1] && states[n - 1 + 1] == states[n];
    }
  }

  /** A step keeps the epoch a participant entered with, for as long as it stays active;
      one that becomes active takes the current epoch. */
  lemma StepKeepsGuard(e: Epochs, a: Action, t: ThreadId)
    requires Inv(e) && Enabled(e, a) && Active(Apply(e, a), t)
    ensures var e' := Apply(e, a);
            && e.epoch <= e'.epoch
            && e'.participants[t].epoch == if Active(e, t) then e.participants[t].epoch else e'.epoch
  {
    hide Ledger, Protected, Kept, Freed;
  }

  lemma {:induction false} EpochGrows(states: seq<Epochs>, actions: seq<Action>, m: nat, n: nat)
    requires IsRun(states, actions) && m <= n < |states|
    ensures states[m].epoch <= states[n].epoch
  {
    hide Kept, Freed, Dead;
    if m < n { EpochGrows(states, actions, m, n - 1); }
  }

  /** An active participant holds the epoch of the state in which its guard began. */
  lemma {:induction false} GuardBegan(states: seq<Epochs>, actions: seq<Action>, n: nat, t: ThreadId) returns (k: nat)
    requires IsRun(states, actions) && n < |states| && Active(states[n], t)
    ensures k <= n && ActiveThrough(states, k, n, t) && states[k].epoch == states[n].participants[t].epoch
  {
    hide Apply, Enabled;
    k := n;
    if n > 0 {
      RunKeepsInv(states, actions, n - 1);
      StepKeepsGuard(states[n - 1], actions[n - 1], t);
      if Active(states[n - 1], t) { k := GuardBegan(states, actions, n - 1, t); }
    }
  }

  lemma {:induction false} GuardStays(states: seq<Epochs>, actions: seq<Action>, m: nat, n: nat, t: ThreadId)
    requires IsRun(states, actions) && m <= n < |states| && ActiveThrough(states, m, n, t)
    ensures states[n].participants[t].epoch == states[m].participants[t].epoch
  {
    hide Apply, Enabled;
    if m < n {
      GuardStays(states, actions, m, n - 1, t);
      RunKeepsInv(states, actions, n - 1);
      assert Active(states[n], t);
      StepKeepsGuard(states[n - 1], actions[n - 1], t);
    }
  }

  /** What a step leaves waiting waited before or was retired by the step, at the epoch it began. */
  lemma StepRetires(e: Epochs, a: Action, r: Retired)
    requires Inv(e) && Enabled(e, a) && r in Apply(e, a).retired
    ensures r in e.retired || (a == Retire(r.backing) && r.retirementEpoch == e.epoch + 1 == Apply(e, a).epoch)
  {
    hide Ledger, Protected, Kept, Freed;
    match a
    case Unregister(t) => ScanSplits(e.participants - {t}, e.retired);
    case Exit(t) =>
      var p := e.participants[t];
      ScanSplits(e.participants[t := p.(activeDepth := p.activeDepth - 1)], e.retired);
    case Retire(b) => ScanSplits(e.participants, e.retired + [Retired(b, e.epoch + 1)]);
    case _ =>
  }

  lemma {:induction false} RetiredWhen(states: seq<Epochs>, actions: seq<Action>, n: nat, r: Retired) returns (m: nat)
    requires IsRun(states, actions) && n < |states| && r in states[n].retired
    ensures m < n && actions[m] == Retire(r.backing)
    ensures r.retirementEpoch == states[m + 1].epoch == states[m].epoch + 1
  {
    hide Apply, Enabled;
    if n > 0 {
      RunKeepsInv(states, actions, n - 1);
      StepRetires(states[n - 1], actions[n - 1], r);
      if r in states[n - 1].retired { m := RetiredWhen(states, actions, n - 1, r); } else { m := n - 1; }
    }
  }

  /** A backing is retired once. */
  lemma RetiredOnce(states: seq<Epochs>, actions: seq<Action>, k: nat, m: nat, b: BackingId)
    requires IsRun(states, actions) && k < |actions| && m < |actions|
    requires actions[k] == Retire(b) && actions[m] == Retire(b)
    ensures k == m
  {
    hide Apply, Dead;
    if k < m { RetiredBefore(states, actions, k, m, b); }
    if m < k { RetiredBefore(states, actions, m, k, b); }
  }

  lemma RetiredBefore(states: seq<Epochs>, actions: seq<Action>, k: nat, m: nat, b: BackingId)
    requires IsRun(states, actions) && k < m < |actions| && actions[k] == Retire(b)
    ensures actions[m] != Retire(b)
  {
    hide Apply, Dead;
    StepDeaths(states[k], actions[k]);
    RetiredIsNeverLost(states, actions, k + 1, m);
    assert Enabled(states[m], actions[m]);
  }

  /** What waits was retired while some thread was active that has been active ever since. */
  lemma WaitingIsHeld(states: seq<Epochs>, actions: seq<Action>, m: nat, n: nat, b: BackingId)
    requires IsRun(states, actions) && m < n < |states| && actions[m] == Retire(b) && Waits(states[n], b)
    ensures exists t :: ActiveThrough(states, m, n, t)
  {
    hide Apply, Enabled;
    RunKeepsInv(states, actions, n);
    var r :| r in states[n].retired && r.backing == b;
    var k := RetiredWhen(states, actions, n, r);
    RetiredOnce(states, actions, k, m, b);
    var t :| t in states[n].participants && Blocks(states[n].participants[t], r);
    k := GuardBegan(states, actions, n, t);
    if m < k { EpochGrows(states, actions, m + 1, k); }
    assert ActiveThrough(states, m, n, t);
  }

  lemma StepKeepsBlocked(e: Epochs, a: Action, r: Retired, t: ThreadId)
    requires Inv(e) && Enabled(e, a)
    requires r in e.retired || (a == Retire(r.backing) && r.retirementEpoch == e.epoch + 1)
    requires t in Apply(e, a).participants && Blocks(Apply(e, a).participants[t], r)
    ensures r in Apply(e, a).retired
  {
    hide Ledger, Protected, Kept, Freed;
    match a
    case Unregister(u) => ScanSplits(e.participants - {u}, e.retired);
    case Exit(u) =>
      var p := e.participants[u];
      ScanSplits(e.participants[u := p.(activeDepth := p.activeDepth - 1)], e.retired);
    case Retire(b) => ScanSplits(e.participants, e.retired + [Retired(b, e.epoch + 1)]);
    case _ =>
  }

  /** A thread active since before a retirement keeps the backing waiting. */
  lemma {:induction false} HeldWaits(states: seq<Epochs>, actions: seq<Action>, m: nat, n: nat, t: ThreadId,
      r: Retired)
    requires IsRun(states, actions) && m < n < |states| && ActiveThrough(states, m, n, t)
    requires actions[m] == Retire(r.backing) && r.retirementEpoch == states[m].epoch + 1
    ensures r in states[n].retired
  {
    hide Apply, Enabled;
    if m < n - 1 { HeldWaits(states, actions, m, n - 1, t, r); }
    RunKeepsInv(states, actions, m);
    RunKeepsInv(states, actions, n - 1);
    assert Active(states[m], t) && Active(states[n], t);
    GuardStays(states, actions, m, n, t);
    StepKeepsBlocked(states[n - 1], actions[n - 1], r, t);
  }

  /** In every run, a retired backing has been unmapped if and only if no thread has been active
      from just before its retirement until now; otherwise it waits. */
  lemma UnmappedIff(states: seq<Epochs>, actions: seq<Action>, m: nat, n: nat, b: BackingId)
    requires IsRun(states, actions) && m < n < |states| && actions[m] == Retire(b)
    ensures b in states[n].unmapped <==> forall t :: !ActiveThrough(states, m, n, t)
    ensures Waits(states[n], b) <==> exists t :: ActiveThrough(states, m, n, t)
  {
    hide Apply, Enabled, ActiveThrough;
    if Waits(states[n], b) { WaitingIsHeld(states, actions, m, n, b); }
    if t :| ActiveThrough(states, m, n, t) {
      HeldWaits(states, actions, m, n, t, Retired(b, states[m].epoch + 1));
    }
    RunKeepsInv(states, actions, n);
    StepDeaths(states[m], actions[m]);
    RetiredIsNeverLost(states, actions, m + 1, n);
  }

  /** The nesting rule is needed: a nested guard that refreshed the epoch would
      let a backing exposed before the refresh be unmapped. */
  lemma RefreshingNestedGuardIsUnsafe(e: Epochs, t: ThreadId, r: Retired)
    requires Inv(e) && Active(e, t)
    requires r in e.retired && r.backing in e.exposed[t]
    requires forall u :: Active(e, u) ==> u == t
    ensures var e' := e.(participants := e.participants[t := Participant(e.epoch, e.participants[t].activeDepth + 1)]);
            r.backing in e'.exposed[t] && r.backing in Reclaimed(e').unmapped
  {
    var e' := e.(participants := e.participants[t := Participant(e.epoch, e.participants[t].activeDepth + 1)]);
    ScanSplits(e'.participants, e'.retired);
    forall u | u in e'.participants ensures !Blocks(e'.participants[u], r) {
      if u != t { assert !Active(e, u); }
    }
  }

  // ----- The imperative form ----------------------------------------------------------

  class EpochDomain {
    var epoch: nat
    var participants: map<ThreadId, Participant>
    var retired: seq<Retired>
    ghost var unmapped: seq<BackingId>
    ghost var published: set<BackingId>
    ghost var exposed: map<ThreadId, set<BackingId>>
    /** The run so far. */
    ghost var states: seq<Epochs>
    ghost var actions: seq<Action>

    ghost function State(): Epochs
      reads this
    {
      Epochs(epoch, participants, retired, unmapped, published, exposed)
    }

    /** What has happened so far is a run of the protocol. */
    ghost predicate Traced()
      reads this
    {
      IsRun(states, actions) && states[|states| - 1] == State()
    }

    ghost predicate Valid()
      reads this
    {
      Inv(State()) && Traced()
    }

    constructor ()
      ensures Valid() && State() == INITIAL
    {
      epoch, participants, retired := 1, map[], [];
      unmapped, published, exposed := [], {}, map[];
      states, actions := [INITIAL], [];
    }

    /** Note the step just taken. */
    ghost method Record(before: Epochs, a: Action)
      requires Inv(before) && IsRun(states, actions) && states[|states| - 1] == before
      requires Enabled(before, a) && State() == Apply(before, a)
      modifies this`states, this`actions
      ensures Valid() && states == old(states) + [State()] && actions == old(actions) + [a]
    {
      RunGrows(states, actions, a);
      StepKeepsInv(before, a);
      states, actions := states + [State()], actions + [a];
    }

    /** Whether some active participant entered before `r` was retired. */
    method FindBlocker(r: Retired) returns (blocked: bool)
      ensures blocked == Blocked(participants, r)
    {
      var rest := participants.Keys;
      while rest != {}
        invariant rest <= participants.Keys
        invariant forall t :: t in participants && t !in rest ==> !Blocks(participants[t], r)
        decreases rest
      {
        var t :| t in rest;
        if Blocks(participants[t], r) {
          return true;
        }
        rest := rest - {t};
      }
      return false;
    }

    /** Scan the retired vector once, unmapping and erasing what nobody blocks. */
    method ReclaimLocked()
      modifies this
      ensures State() == Reclaimed(old(State())) && states == old(states) && actions == old(actions)
    {
      hide Kept, Freed, Blocked;
      ScanNothing(participants);
      assert retired[0..] == retired && retired[..0] == [];
      var i := 0;
      while i < |retired|
        invariant 0 <= i <= |retired|
        invariant epoch == old(epoch) && participants == old(participants)
        invariant published == old(published) && exposed == old(exposed)
        invariant states == old(states) && actions == old(actions)
        invariant retired[..i] + Kept(participants, retired[i..]) == Kept(participants, old(retired))
        invariant unmapped + Freed(participants, retired[i..]) == old(unmapped) + Freed(participants, old(retired))
        decreases |retired| - i
      {
        var blocked := FindBlocker(retired[i]);
        ScanNext(participants, retired, i);
        if blocked {
          assert retired[..i + 1] == retired[..i] + [retired[i]];
          i := i + 1;
        } else {
          assert (retired[..i] + retired[i + 1..])[..i] == retired[..i];
          assert (retired[..i] + retired[i + 1..])[i..] == retired[i + 1..];
          unmapped := unmapped + [retired[i].backing];
          retired := retired[..i] + retired[i + 1..];
        }
      }
      assert retired[..i] == retired && retired[i..] == [];
    }

    method RegisterParticipant(t: ThreadId)
      requires Valid()
      modifies this
      ensures State() == Apply(old(State()), Register(t)) && Valid()
      ensures actions == old(actions) + [Register(t)] && states == old(states) + [State()]
    {
      ghost var before := State();
      if t in participants {
        Record(before, Register(t));
        return;
      }
      participants := participants[t := Participant(epoch, 0)];
      exposed := exposed[t := {}];
      Record(before, Register(t));
    }

    method UnregisterParticipant(t: ThreadId)
      requires Valid() && Enabled(State(), Unregister(t))
      modifies this
      ensures State() == Apply(old(State()), Unregister(t)) && Valid()
      ensures actions == old(actions) + [Unregister(t)] && states == old(states) + [State()]
    {
      ghost var before := State();
      if t !in participants {
        Record(before, Unregister(t));
        return;
      }
      participants := participants - {t};
      exposed := exposed - {t};
      ReclaimLocked();
      Record(before, Unregister(t));
    }

    method EnterGuard(t: ThreadId)
      requires Valid() && Enabled(State(), Enter(t))
      modifies this
      ensures State() == Apply(old(State()), Enter(t)) && Valid()
      ensures participants[t] == Participant(
                if old(participants)[t].activeDepth == 0 then epoch else old(participants)[t].epoch,
                old(participants)[t].activeDepth + 1)
      ensures participants == old(participants)[t := participants[t]] && retired == old(retired)
              && epoch == old(epoch) && unmapped == old(unmapped)
      ensures actions == old(actions) + [Enter(t)] && states == old(states) + [State()]
    {
      ghost var before := State();
      var p := participants[t];
      participants := participants[t := p.(activeDepth := p.activeDepth + 1)];
      if p.activeDepth == 0 {
        participants := participants[t := participants[t].(epoch := epoch)];
        exposed := exposed[t := published];
      }
      Record(before, Enter(t));
    }

    method ExitGuard(t: ThreadId)
      requires Valid() && Enabled(State(), Exit(t))
      modifies this
      ensures State() == Apply(old(State()), Exit(t)) && Valid()
      ensures participants == old(participants)[t := old(participants)[t].(
                activeDepth := old(participants)[t].activeDepth - 1)]
      ensures epoch == old(epoch) && (participants[t].activeDepth > 0 ==> retired == old(retired))
      ensures actions == old(actions) + [Exit(t)] && states == old(states) + [State()]
    {
      ghost var before := State();
      var p := participants[t];
      participants := participants[t := p.(activeDepth := p.activeDepth - 1)];
      if p.activeDepth - 1 == 0 {
        exposed := exposed[t := {}];
        ReclaimLocked();
      }
      Record(before, Exit(t));
    }

    method RetireBacking(b: BackingId)
      requires Valid() && Enabled(State(), Retire(b))
      modifies this
      ensures State() == Apply(old(State()), Retire(b)) && Valid()
      ensures actions == old(actions) + [Retire(b)] && states == old(states) + [State()]
    {
      ghost var before := State();
      epoch := epoch + 1;
      retired := retired + [Retired(b, epoch)];
      ReclaimLocked();
      Record(before, Retire(b));
    }

    /** A store to the page table has made `s` the set of published backings. */
    ghost method NotePublished(s: set<BackingId>)
      requires Valid() && Enabled(State(), Republish(s))
      modifies this`published, this`exposed, this`states, this`actions
      ensures State() == Apply(old(State()), Republish(s)) && Valid()
      ensures actions == old(actions) + [Republish(s)] && states == old(states) + [State()]
    {
      ghost var before := State();
      exposed := map t | t in exposed :: if Active(State(), t) then exposed[t] + s else exposed[t];
      published := s;
      Record(before, Republish(s));
    }

    /** A backing comes into being and can be reached from now on. */
    ghost method NoteCreated(b: BackingId)
      requires Valid() && !Dead(State(), b)
      modifies this`published, this`exposed, this`states, this`actions
      ensures Valid() && published == old(published) + {b} && old(states) <= states
      ensures forall c :: Dead(State(), c) <==> old(Dead(State(), c))
    {
      StepDeaths(State(), Republish(published + {b}));
      NotePublished(published + {b});
    }

    /** Nothing leads to the backing any more: withdraw it, then retire it. */
    method RetireUnreachable(b: BackingId)
      requires Valid() && b in published
      modifies this
      ensures Valid() && old(states) <= states && published == old(published) - {b} && participants == old(participants)
      ensures forall c :: Dead(State(), c) <==> old(Dead(State(), c)) || c == b
    {
      StepDeaths(State(), Republish(published - {b}));
      NotePublished(published - {b});
      StepDeaths(State(), Retire(b));
      RetireBacking(b);
    }
  }
}
