/** Rotating the release key over a fleet. */
module Fleet {
  // A release embeds two key slots and is signed by one key. The documented
  // procedure publishes releases embedding `[old, zero]`, then at least one
  // `[old, new]` still signed by the old key, then `[new, zero]` signed by the new
  // one. Machines update when they like, from a source that may lie about tags and
  // serve old or foreign releases; only the private keys are out of its reach. The
  // installer asks the installed file for its version before the swap and the new one
  // after it; either may fail to answer, a binary whose output begins with a blank line
  // always does, and the process may end in between.

  import opened Prelude
  import opened Utf8
  import opened SelfUpdate

  datatype Keys = Keys(older: Bytes, newer: Bytes)

  predicate ValidKeys(k: Keys) {
    k.older != k.newer && k.older != ZERO_KEY && k.newer != ZERO_KEY
  }

  datatype Phase = Before | Migration | After

  function PhaseRank(p: Phase): nat {
    match p case Before => 0 case Migration => 1 case After => 2
  }

  /** `framed`: what it writes for `--version` begins with a blank line. */
  datatype Release = Release(version: Version, phase: Phase, framed: bool)

  function Slots(k: Keys, p: Phase): seq<Bytes> {
    match p
    case Before => [k.older, ZERO_KEY]
    case Migration => [k.older, k.newer]
    case After => [k.newer, ZERO_KEY]
  }

  function Signer(k: Keys, p: Phase): Bytes {
    if p == After then k.newer else k.older
  }

  lemma SlotsTrust(k: Keys, p: Phase)
    requires ValidKeys(k)
    ensures ActiveKeys(Slots(k, p)) == match p case Before => [k.older] case Migration => [k.older, k.newer] case After => [k.newer]
  {
    var s := Slots(k, p);
    assert s[..|s| - 1] == [s[0]];
    assert [s[0]][..0] == [];
    assert ActiveKeys([s[0]]) == ActiveKeys([s[0]][..0]) + [s[0]];
  }

  /** What an installed file is: its version, the slots it embeds and how it writes. */
  datatype Binary = Binary(version: Version, slots: seq<Bytes>, framed: bool)

  function BinaryOf(k: Keys, r: Release): Binary {
    Binary(r.version, Slots(k, r.phase), r.framed)
  }

  /** The manifest binds bytes, not the tag, so a source may pair any of them. */
  datatype Offer = Offer(tag: Version, binary: Binary, signer: Bytes)

  predicate Trusts(b: Binary, signer: Bytes) {
    signer in ActiveKeys(b.slots)
  }

  // ----- the fleet -----

  /** `ran` is every binary this machine has had: a process started from any of
      them may still be about to finish its update. */
  datatype Machine = Machine(installed: Binary, ran: set<Binary>)

  datatype State = State(published: seq<Release>, machines: seq<Machine>)

  /** What comes after the swap. `Untested`: the process ends before the verdict, or
      cannot put the old file back. `Tested(None)`: no answer, or not one that reads as
      a version of the tag's spelling. */
  datatype Aftermath = Tested(reported: Option<Version>) | Untested

  /** One update by a process running `running`; `answer` is what the installed file
      says its version is, under the install lock. */
  datatype Attempt = Attempt(running: Binary, offer: Offer, force: bool, answer: Option<Version>, aftermath: Aftermath)

  datatype Event =
    | Publish(release: Release)
    | Update(machine: nat, attempt: Attempt)

  predicate Documented(releases: seq<Release>) {
    && (forall i, j :: 0 <= i < j < |releases| ==> Less(releases[i].version, releases[j].version))
    && (forall i, j :: 0 <= i < j < |releases| ==> PhaseRank(releases[i].phase) <= PhaseRank(releases[j].phase))
  }

  /** Nobody but the project signs with the project's keys. */
  predicate Unforged(k: Keys, published: seq<Release>, o: Offer) {
    (o.signer == k.older || o.signer == k.newer) ==>
      exists i :: 0 <= i < |published| && o.binary == BinaryOf(k, published[i]) && o.signer == Signer(k, published[i].phase)
  }

  /** The gates before the swap: newer than the running version unless forced, signed
      by a key the process trusts, not older than what the installed file answers
      unless forced. */
  predicate Swaps(a: Attempt) {
    && (Less(a.running.version, a.offer.tag) || a.force)
    && Trusts(a.running, a.offer.signer)
    && (a.force || a.answer.None? || !Less(a.offer.tag, a.answer.value))
  }

  /** The new file is left in place: it reports the tag it was offered under, or
      nobody gets to ask it. */
  predicate Stays(a: Attempt) {
    a.aftermath.Untested? || a.aftermath.reported == Some(a.offer.tag)
  }

  /** What is heard from a binary that answers. */
  function Reported(b: Binary): Option<Version> {
    if b.framed then None else Some(b.version)
  }

  /** A binary that is heard tells its own version. */
  predicate Truthful(answer: Option<Version>, b: Binary) {
    answer.Some? ==> answer == Reported(b)
  }

  predicate Enabled(k: Keys, s: State, e: Event) {
    match e
    case Publish(r) => Documented(s.published + [r])
    case Update(m, a) =>
      && m < |s.machines| && a.running in s.machines[m].ran && Unforged(k, s.published, a.offer)
      && Truthful(a.answer, s.machines[m].installed)
      && (a.aftermath.Tested? ==> Truthful(a.aftermath.reported, a.offer.binary))
  }

  /** The new file is in place until its self-test, so it may be run either way. */
  function Install(m: Machine, a: Attempt): Machine {
    Machine(if Stays(a) then a.offer.binary else m.installed, m.ran + {a.offer.binary})
  }

  function Step(k: Keys, s: State, e: Event): (r: State)
    ensures |r.machines| == |s.machines|
  {
    if !Enabled(k, s, e) then s
    else
      match e
      case Publish(r) => s.(published := s.published + [r])
      case Update(m, a) =>
        if Swaps(a) then s.(machines := s.machines[m := Install(s.machines[m], a)]) else s
  }

  function Run(k: Keys, s: State, events: seq<Event>): (r: State)
    ensures |r.machines| == |s.machines|
    decreases |events|
  {
    if events == [] then s else Step(k, Run(k, s, events[..|events| - 1]), events[|events| - 1])
  }

  predicate IsPublished(k: Keys, published: seq<Release>, b: Binary) {
    exists i :: 0 <= i < |published| && b == BinaryOf(k, published[i])
  }

  ghost predicate Inv(k: Keys, s: State) {
    && ValidKeys(k)
    && Documented(s.published)
    && forall m :: 0 <= m < |s.machines| ==>
         && s.machines[m].installed in s.machines[m].ran
         && forall b :: b in s.machines[m].ran ==> IsPublished(k, s.published, b)
  }

  lemma TrustedOfferIsPublished(k: Keys, s: State, running: Binary, o: Offer)
    requires Inv(k, s) && IsPublished(k, s.published, running) && Unforged(k, s.published, o) && Trusts(running, o.signer)
    ensures exists i :: 0 <= i < |s.published| && o.binary == BinaryOf(k, s.published[i]) && o.signer == Signer(k, s.published[i].phase)
  {
    var i :| 0 <= i < |s.published| && running == BinaryOf(k, s.published[i]);
    SlotsTrust(k, s.published[i].phase);
  }

  lemma PublishKeeps(k: Keys, published: seq<Release>, r: Release, b: Binary)
    requires IsPublished(k, published, b)
    ensures IsPublished(k, published + [r], b)
  {
    var i :| 0 <= i < |published| && b == BinaryOf(k, published[i]);
    assert (published + [r])[i] == published[i];
  }

  lemma StepKeepsInv(k: Keys, s: State, e: Event)
    requires Inv(k, s)
    ensures Inv(k, Step(k, s, e))
  {
    if Enabled(k, s, e) {
      match e
      case Publish(r) =>
        forall m, b | 0 <= m < |s.machines| && b in s.machines[m].ran ensures IsPublished(k, s.published + [r], b) {
          PublishKeeps(k, s.published, r, b);
        }
      case Update(m, a) =>
        if Swaps(a) {
          TrustedOfferIsPublished(k, s, a.running, a.offer);
        }
    }
  }

  lemma {:induction false} RunKeepsInv(k: Keys, s: State, events: seq<Event>)
    requires Inv(k, s)
    ensures Inv(k, Run(k, s, events))
    decreases |events|
  {
    if events != [] {
      RunKeepsInv(k, s, events[..|events| - 1]);
      StepKeepsInv(k, Run(k, s, events[..|events| - 1]), events[|events| - 1]);
    }
  }

  // ----- framed releases -----

  /** A new file that is asked stays exactly when it is not framed and its version is
      the one it was offered under. */
  lemma TestedStaysIff(a: Attempt)
    requires a.aftermath == Tested(Reported(a.offer.binary))
    ensures Stays(a) <==> !a.offer.binary.framed && a.offer.binary.version == a.offer.tag
  {}

  predicate AllFramed(published: seq<Release>) {
    forall i :: 0 <= i < |published| ==> published[i].framed
  }

  predicate TestedOn(e: Event, m: nat) {
    e.Update? && e.machine == m ==> e.attempt.aftermath.Tested?
  }

  lemma FramedStepStandsStill(k: Keys, s: State, e: Event, m: nat)
    requires Inv(k, s) && m < |s.machines| && AllFramed(s.published) && TestedOn(e, m)
    ensures Step(k, s, e).machines[m].installed == s.machines[m].installed
  {
    if e.Update? && Enabled(k, s, e) && Swaps(e.attempt) {
      TrustedOfferIsPublished(k, s, e.attempt.running, e.attempt.offer);
    }
  }

  /** While every release is framed, as the ones this code is built into are, no update
      that comes to its self-test ever changes a machine, forced or not, whatever the
      source serves. */
  lemma {:induction false} FramedFleetStandsStill(k: Keys, s: State, events: seq<Event>, m: nat)
    requires Inv(k, s) && m < |s.machines| && AllFramed(Run(k, s, events).published)
    requires forall i :: 0 <= i < |events| ==> TestedOn(events[i], m)
    ensures Run(k, s, events).machines[m].installed == s.machines[m].installed
    decreases |events|
  {
    hide Inv, Step, TestedOn, AllFramed;
    if events != [] {
      var last := |events| - 1;
      var before := Run(k, s, events[..last]);
      RunKeepsInv(k, s, events[..last]);
      WereFramed(k, before, events[last]);
      FramedFleetStandsStill(k, s, events[..last], m);
      FramedStepStandsStill(k, before, events[last], m);
    }
  }

  lemma WereFramed(k: Keys, s: State, e: Event)
    requires AllFramed(Step(k, s, e).published)
    ensures AllFramed(s.published)
  {
    forall i | 0 <= i < |s.published| ensures s.published[i].framed {
      assert Step(k, s, e).published[i] == s.published[i];
    }
  }

  // ----- what every run guarantees -----

  /** Whatever the source serves, a machine only ever changes to a published
      release, signed by a key the updating process trusts. */
  lemma OnlyTrustedReleasesAreInstalled(k: Keys, s: State, events: seq<Event>, e: Event, m: nat)
    requires Inv(k, s) && m < |s.machines|
    requires Step(k, Run(k, s, events), e).machines[m].installed != Run(k, s, events).machines[m].installed
    ensures var now := Run(k, s, events);
            && e.Update? && e.machine == m && e.attempt.running in now.machines[m].ran
            && Trusts(e.attempt.running, e.attempt.offer.signer)
            && exists i :: && 0 <= i < |now.published|
                           && Step(k, now, e).machines[m].installed == BinaryOf(k, now.published[i])
                           && e.attempt.offer.signer == Signer(k, now.published[i].phase)
  {
    RunKeepsInv(k, s, events);
    var now := Run(k, s, events);
    TrustedOfferIsPublished(k, now, e.attempt.running, e.attempt.offer);
  }

  lemma VersionOrdersPhases(k: Keys, s: State, a: Binary, b: Binary)
    requires Inv(k, s) && IsPublished(k, s.published, a) && IsPublished(k, s.published, b) && !Less(b.version, a.version)
    ensures exists i, j :: 0 <= i <= j < |s.published| && a == BinaryOf(k, s.published[i]) && b == BinaryOf(k, s.published[j])
  {
    var i :| 0 <= i < |s.published| && a == BinaryOf(k, s.published[i]);
    var j :| 0 <= j < |s.published| && b == BinaryOf(k, s.published[j]);
    assert i <= j;
  }

  /** The phase of the release a binary came from. */
  function PhaseOf(k: Keys, b: Binary): Phase {
    if b.slots == Slots(k, After) then After else if b.slots == Slots(k, Migration) then Migration else Before
  }

  lemma PhaseOfBinary(k: Keys, r: Release)
    requires ValidKeys(k)
    ensures PhaseOf(k, BinaryOf(k, r)) == r.phase
  {
    assert Slots(k, Before)[0] != Slots(k, After)[0] && Slots(k, Migration)[0] != Slots(k, After)[0];
    assert Slots(k, Before)[1] != Slots(k, Migration)[1];
  }

  /** A step never takes a machine back in the rotation without taking its version back. */
  lemma RotationFollowsVersion(k: Keys, s: State, e: Event, m: nat)
    requires Inv(k, s) && m < |s.machines|
    ensures var (b, b') := (s.machines[m].installed, Step(k, s, e).machines[m].installed);
            Less(b'.version, b.version) || PhaseRank(PhaseOf(k, b)) <= PhaseRank(PhaseOf(k, b'))
  {
    hide Documented, Less;
    var s' := Step(k, s, e);
    StepKeepsInv(k, s, e);
    var (b, b') := (s.machines[m].installed, s'.machines[m].installed);
    if b != b' && !Less(b'.version, b.version) {
      assert IsPublished(k, s'.published, b) && IsPublished(k, s'.published, b');
      VersionOrdersPhases(k, s', b, b');
      var i, j :| 0 <= i <= j < |s'.published| && b == BinaryOf(k, s'.published[i]) && b' == BinaryOf(k, s'.published[j]);
      InOrder(s'.published, i, j);
      PhaseOfBinary(k, s'.published[i]);
      PhaseOfBinary(k, s'.published[j]);
    }
  }

  lemma InOrder(releases: seq<Release>, i: nat, j: nat)
    requires Documented(releases) && i <= j < |releases|
    ensures PhaseRank(releases[i].phase) <= PhaseRank(releases[j].phase)
  {}

  /** Without `--force`, an update puts an older version over a newer one exactly when
      it gets to the swap and either the installed file did not answer, or nobody asked
      the new file for its version, which the tag need not tell. Only then can it go
      back in the rotation. */
  lemma UnforcedStepGoesBackIff(k: Keys, s: State, m: nat, a: Attempt)
    requires Inv(k, s) && Enabled(k, s, Update(m, a)) && !a.force
    ensures var b := s.machines[m].installed;
            Less(Step(k, s, Update(m, a)).machines[m].installed.version, b.version) <==>
              && Swaps(a)
              && match a.aftermath
                 case Tested(reported) => a.answer.None? && reported == Some(a.offer.tag) && Less(a.offer.tag, b.version)
                 case Untested => Less(a.offer.binary.version, b.version)
    ensures var (b, b') := (s.machines[m].installed, Step(k, s, Update(m, a)).machines[m].installed);
            PhaseRank(PhaseOf(k, b')) < PhaseRank(PhaseOf(k, b)) ==> Less(b'.version, b.version)
  {
    hide PhaseOf, Inv;
    RotationFollowsVersion(k, s, Update(m, a), m);
  }

  /** An update that cannot put an older version in place: not forced, its new file
      asked, and the installed one too if it is newer than the running one. */
  predicate Guarded(s: State, e: Event, m: nat)
    requires m < |s.machines|
  {
    e.Update? && e.machine == m ==>
      && !e.attempt.force && e.attempt.aftermath.Tested?
      && (Less(e.attempt.running.version, s.machines[m].installed.version) ==> e.attempt.answer.Some?)
  }

  lemma GuardedStepMovesForward(k: Keys, s: State, e: Event, m: nat)
    requires Inv(k, s) && m < |s.machines| && Guarded(s, e, m)
    ensures var (b, b') := (s.machines[m].installed, Step(k, s, e).machines[m].installed);
            !Less(b'.version, b.version) && PhaseRank(PhaseOf(k, b)) <= PhaseRank(PhaseOf(k, b'))
  {
    hide PhaseOf, Inv;
    RotationFollowsVersion(k, s, e, m);
  }

  /** Every update of machine `m` along a run is guarded. */
  ghost predicate GuardedRun(k: Keys, s: State, events: seq<Event>, m: nat)
    requires m < |s.machines|
  {
    forall i :: 0 <= i < |events| ==> Guarded(Run(k, s, events[..i]), events[i], m)
  }

  lemma GuardedPrefix(k: Keys, s: State, events: seq<Event>, m: nat)
    requires m < |s.machines| && GuardedRun(k, s, events, m) && events != []
    ensures GuardedRun(k, s, events[..|events| - 1], m)
    ensures Guarded(Run(k, s, events[..|events| - 1]), events[|events| - 1], m)
  {
    hide Guarded, Run;
    var front := events[..|events| - 1];
    forall i | 0 <= i < |front| ensures Guarded(Run(k, s, front[..i]), front[i], m) {
      assert front[..i] == events[..i];
    }
  }

  /** While its updates are guarded, neither a machine's version nor its place in the
      rotation ever goes back, whatever is served and however old the processes that
      finish their update late. */
  lemma {:induction false} GuardedRunMovesForward(k: Keys, s: State, events: seq<Event>, m: nat)
    requires Inv(k, s) && m < |s.machines| && GuardedRun(k, s, events, m)
    ensures var (b, b') := (s.machines[m].installed, Run(k, s, events).machines[m].installed);
            !Less(b'.version, b.version) && PhaseRank(PhaseOf(k, b)) <= PhaseRank(PhaseOf(k, b'))
    decreases |events|
  {
    hide Inv, Guarded, GuardedRun, Step, PhaseOf;
    if events != [] {
      var last := |events| - 1;
      GuardedPrefix(k, s, events, m);
      GuardedRunMovesForward(k, s, events[..last], m);
      RunKeepsInv(k, s, events[..last]);
      GuardedStepMovesForward(k, Run(k, s, events[..last]), events[last], m);
    }
  }

  /** The offer an honest source makes for a release. */
  function Honest(k: Keys, r: Release): Offer {
    Offer(r.version, BinaryOf(k, r), Signer(k, r.phase))
  }

  /** An update by the installed binary itself, with both questions asked. */
  function Ordinary(b: Binary, o: Offer): Attempt {
    Attempt(b, o, false, Reported(b), Tested(Reported(o.binary)))
  }

  lemma PhaseTrusts(k: Keys, b: Phase, r: Phase)
    requires ValidKeys(k) && PhaseRank(b) <= PhaseRank(r)
    ensures Signer(k, r) in ActiveKeys(Slots(k, b)) <==> !(b == Before && r == After)
  {
    SlotsTrust(k, b);
  }

  lemma HonestOffersAreUnforged(k: Keys, published: seq<Release>, i: nat)
    requires i < |published|
    ensures Unforged(k, published, Honest(k, published[i]))
  {}

  /** Which releases an installed binary can move to: every later one that is not
      framed, except a binary from before the migration that is offered one from after
      it. That machine skipped the migration release and has to be reinstalled. */
  lemma WhoCanTakeWhat(k: Keys, s: State, m: nat, i: nat)
    requires Inv(k, s) && m < |s.machines| && i < |s.published|
    requires Less(s.machines[m].installed.version, s.published[i].version)
    ensures var (b, r) := (s.machines[m].installed, s.published[i]);
            (Step(k, s, Update(m, Ordinary(b, Honest(k, r)))).machines[m].installed == BinaryOf(k, r))
            <==> !r.framed && !(PhaseOf(k, b) == Before && r.phase == After)
  {
    var (b, r) := (s.machines[m].installed, s.published[i]);
    assert IsPublished(k, s.published, b);
    var j :| 0 <= j < |s.published| && b == BinaryOf(k, s.published[j]);
    PhaseOfBinary(k, s.published[j]);
    LessIsStrictTotalOrder(b.version, r.version, b.version);
    assert j < i;
    PhaseTrusts(k, s.published[j].phase, r.phase);
    HonestOffersAreUnforged(k, s.published, i);
  }

  /** Once on a migration release, never stuck for want of a key: of the later releases
      of the procedure exactly the ones that are not framed are taken, and the last ones
      leave trust in the new key only. */
  lemma MigratedMachinesConverge(k: Keys, s: State, events: seq<Event>, m: nat, i: nat)
    requires Inv(k, s) && m < |s.machines| && PhaseOf(k, s.machines[m].installed) != Before
    requires GuardedRun(k, s, events, m)
    requires i < |Run(k, s, events).published|
    requires Less(Run(k, s, events).machines[m].installed.version, Run(k, s, events).published[i].version)
    ensures var now := Run(k, s, events);
            var r := now.published[i];
            var later := Step(k, now, Update(m, Ordinary(now.machines[m].installed, Honest(k, r))));
            && (later.machines[m].installed == BinaryOf(k, r) <==> !r.framed)
            && (r.phase == After && !r.framed ==> ActiveKeys(later.machines[m].installed.slots) == [k.newer])
  {
    GuardedRunMovesForward(k, s, events, m);
    RunKeepsInv(k, s, events);
    WhoCanTakeWhat(k, Run(k, s, events), m, i);
    SlotsTrust(k, After);
  }

  /** A machine on a release from after the migration trusts only the new key,
      from then on, for as long as its updates are guarded. */
  lemma AfterStaysAfter(k: Keys, s: State, events: seq<Event>, m: nat)
    requires Inv(k, s) && m < |s.machines| && PhaseOf(k, s.machines[m].installed) == After
    requires GuardedRun(k, s, events, m)
    ensures ActiveKeys(Run(k, s, events).machines[m].installed.slots) == [k.newer]
  {
    GuardedRunMovesForward(k, s, events, m);
    SlotsTrust(k, After);
  }

  // ----- where a machine goes back -----

  function ThreeReleases(v: Version, w: Version, x: Version, framed: bool): seq<Release> {
    [Release(v, Before, framed), Release(w, Migration, framed), Release(x, After, framed)]
  }

  /** All three are out, and the machine that had the first two is on the last. */
  function Rotated(k: Keys, rs: seq<Release>): State
    requires |rs| == 3
  {
    State(rs, [Machine(BinaryOf(k, rs[2]), {BinaryOf(k, rs[0]), BinaryOf(k, rs[1]), BinaryOf(k, rs[2])})])
  }

  /** How a file can come to stay: it passes its self-test, or, being framed, is never
      put to it. */
  function Staying(b: Binary): Aftermath {
    if b.framed then Untested else Tested(Some(b.version))
  }

  /** An update by the installed binary itself that goes through. */
  function GoesThrough(b: Binary, o: Offer): Attempt {
    Attempt(b, o, false, Reported(b), Staying(o.binary))
  }

  lemma RotatedIsSound(k: Keys, v: Version, w: Version, x: Version, framed: bool)
    requires ValidKeys(k) && Less(v, w) && Less(w, x)
    ensures Inv(k, Rotated(k, ThreeReleases(v, w, x, framed)))
  {
    var rs := ThreeReleases(v, w, x, framed);
    LessIsStrictTotalOrder(v, w, x);
    assert IsPublished(k, rs, BinaryOf(k, rs[0])) && IsPublished(k, rs, BinaryOf(k, rs[1])) && IsPublished(k, rs, BinaryOf(k, rs[2]));
  }

  lemma OneStep(k: Keys, rs: seq<Release>, ran: set<Binary>, b: Binary, i: nat)
    requires i < |rs| && b in ran && Less(b.version, rs[i].version) && Trusts(b, Signer(k, rs[i].phase))
    ensures Step(k, State(rs, [Machine(b, ran)]), Update(0, GoesThrough(b, Honest(k, rs[i]))))
            == State(rs, [Machine(BinaryOf(k, rs[i]), ran + {BinaryOf(k, rs[i])})])
  {
    HonestOffersAreUnforged(k, rs, i);
    hide Unforged, Trusts;
  }

  lemma RunOfTwo(k: Keys, s: State, e: Event, f: Event)
    ensures Run(k, s, [e, f]) == Step(k, Step(k, s, e), f)
  {
    hide Step;
    assert [e, f][..1] == [e] && [e][..0] == [];
    assert Run(k, s, [e]) == Step(k, Run(k, s, []), e);
  }

  /** Two updates lead there, and it is a state the results above speak of. */
  lemma RotatedIsReachable(k: Keys, v: Version, w: Version, x: Version, framed: bool)
    requires ValidKeys(k) && Less(v, w) && Less(w, x)
    ensures var rs := ThreeReleases(v, w, x, framed);
            var (b, c) := (BinaryOf(k, rs[0]), BinaryOf(k, rs[1]));
            Run(k, State(rs, [Machine(b, {b})]), [Update(0, GoesThrough(b, Honest(k, rs[1]))), Update(0, GoesThrough(c, Honest(k, rs[2])))])
            == Rotated(k, rs)
    ensures Inv(k, Rotated(k, ThreeReleases(v, w, x, framed)))
  {
    RotatedIsSound(k, v, w, x, framed);
    hide Run, Step, Slots, Less, Honest, GoesThrough, Inv;
    var rs := ThreeReleases(v, w, x, framed);
    var (b, c, d) := (BinaryOf(k, rs[0]), BinaryOf(k, rs[1]), BinaryOf(k, rs[2]));
    var s0 := State(rs, [Machine(b, {b})]);
    var (e, f) := (Update(0, GoesThrough(b, Honest(k, rs[1]))), Update(0, GoesThrough(c, Honest(k, rs[2]))));
    SlotsTrust(k, Before);
    SlotsTrust(k, Migration);
    OneStep(k, rs, {b}, b, 1);
    OneStep(k, rs, {b} + {c}, c, 2);
    assert {b} + {c} + {d} == {b, c, d};
    RunOfTwo(k, s0, e, f);
  }

  /** A process started before the migration finishes late, when the file installed
      since does not answer, as a framed one never does: unforced, the version and the
      place in the rotation both go back. */
  lemma AnUnansweredProbeGoesBack(k: Keys, v: Version, w: Version, x: Version, framed: bool)
    requires ValidKeys(k) && Less(v, w) && Less(w, x)
    ensures var rs := ThreeReleases(v, w, x, framed);
            var s := Rotated(k, rs);
            var late := Attempt(BinaryOf(k, rs[0]), Honest(k, rs[1]), false, None, Staying(BinaryOf(k, rs[1])));
            var back := Step(k, s, Update(0, late)).machines[0].installed;
            && Enabled(k, s, Update(0, late)) && back == BinaryOf(k, rs[1])
            && Less(back.version, s.machines[0].installed.version)
            && PhaseOf(k, s.machines[0].installed) == After && PhaseOf(k, back) == Migration
  {
    hide Documented, IsPublished, Less;
    var rs := ThreeReleases(v, w, x, framed);
    SlotsTrust(k, Before);
    HonestOffersAreUnforged(k, rs, 1);
    PhaseOfBinary(k, rs[1]);
    PhaseOfBinary(k, rs[2]);
  }

  /** The source serves the oldest release under a newer tag, and the process ends
      before the self-test it would fail: the old release stays. */
  lemma AnUntestedSwapGoesBack(k: Keys, v: Version, w: Version, x: Version, y: Version, framed: bool)
    requires ValidKeys(k) && Less(v, w) && Less(w, x) && Less(x, y)
    ensures var rs := ThreeReleases(v, w, x, framed);
            var s := Rotated(k, rs);
            var cut := Attempt(BinaryOf(k, rs[1]), Honest(k, rs[0]).(tag := y), false, Reported(s.machines[0].installed), Untested);
            var back := Step(k, s, Update(0, cut)).machines[0].installed;
            && Enabled(k, s, Update(0, cut)) && back == BinaryOf(k, rs[0])
            && Less(back.version, s.machines[0].installed.version)
  {
    var rs := ThreeReleases(v, w, x, framed);
    LessIsStrictTotalOrder(v, w, x);
    LessIsStrictTotalOrder(w, x, y);
    LessIsStrictTotalOrder(y, x, y);
    hide Documented, IsPublished, Less, Unforged, ActiveKeys;
    SlotsTrust(k, Migration);
    UnforgedUnderAnyTag(k, rs, 0, y);
  }

  lemma UnforgedUnderAnyTag(k: Keys, published: seq<Release>, i: nat, tag: Version)
    requires i < |published|
    ensures Unforged(k, published, Honest(k, published[i]).(tag := tag))
  {}

  /** A forced reinstall of a release from before the migration takes the new key away
      again, and with it the way forward. */
  lemma ForceCanUndoTheMigration(k: Keys, v: Version, w: Version, x: Version, framed: bool)
    requires ValidKeys(k) && Less(v, w) && Less(w, x)
    ensures var rs := ThreeReleases(v, w, x, framed);
            var s := Rotated(k, rs);
            var forced := Attempt(BinaryOf(k, rs[1]), Honest(k, rs[0]), true, None, Staying(BinaryOf(k, rs[0])));
            var back := Step(k, s, Update(0, forced));
            && Enabled(k, s, Update(0, forced)) && PhaseOf(k, back.machines[0].installed) == Before
            && forall answer, aftermath ::
                 Step(k, back, Update(0, Attempt(back.machines[0].installed, Honest(k, rs[2]), true, answer, aftermath))) == back
  {
    hide Documented, IsPublished, Less, Unforged, ActiveKeys;
    var rs := ThreeReleases(v, w, x, framed);
    SlotsTrust(k, Before);
    SlotsTrust(k, Migration);
    HonestOffersAreUnforged(k, rs, 0);
    PhaseOfBinary(k, rs[0]);
    var forced := Attempt(BinaryOf(k, rs[1]), Honest(k, rs[0]), true, None, Staying(BinaryOf(k, rs[0])));
    var back := Step(k, Rotated(k, rs), Update(0, forced));
    assert back.machines[0].installed == BinaryOf(k, rs[0]);
    forall answer, aftermath
      ensures Step(k, back, Update(0, Attempt(back.machines[0].installed, Honest(k, rs[2]), true, answer, aftermath))) == back
    {
      UntrustedStandsStill(k, back, 0, Attempt(BinaryOf(k, rs[0]), Honest(k, rs[2]), true, answer, aftermath));
    }
  }

  lemma UntrustedStandsStill(k: Keys, s: State, m: nat, a: Attempt)
    requires !Trusts(a.running, a.offer.signer)
    ensures Step(k, s, Update(m, a)) == s
  {}

  // ----- the step is the update -----

  /** A signature that verifies under its signer's key alone, checked as the running
      binary checks it, with real keys in its slots. */
  ghost predicate SignedBy(h: Host, slots: seq<Bytes>, manifest: Bytes, signature: Bytes, signer: Bytes) {
    && |signature| == SIGNATURE_LENGTH
    && (h.check(manifest, signature).Ok? <==> IsSigned(h.scheme, slots, manifest, signature))
    && (forall key :: key in slots && key != ZERO_KEY ==> h.scheme.validKey(key))
    && (forall key :: h.scheme.verify(key, manifest, signature) <==> key == signer)
  }

  /** What comes of asking a binary: nothing, or its own output. */
  predicate MayWrite(answer: Answer, b: Binary) {
    answer == None || answer == Some(Prints(b.version, b.framed))
  }

  /** A host, a source and two outputs that play an attempt out up to its self-test, over
      a manifest that lists the binary. */
  ghost predicate PlaysOut(h: Host, latest: Option<string>, assets: map<string, Bytes>, a: Attempt, installed: Answer, swapped: Answer) {
    && h.current == Show(a.running.version) && latest == Some("v" + Show(a.offer.tag)) && h.force == a.force
    && !h.checkOnly && h.managedBy == Ok(None) && h.asset.Some?
    && MANIFEST in assets && SIGNATURE in assets
    && SignedBy(h, a.running.slots, assets[MANIFEST], assets[SIGNATURE], a.offer.signer)
    && BinaryMatches(h, assets)
    && (h.install(assets[h.asset.value], Show(a.offer.tag), h.force) <==> InstallSucceeds(installed, Show(a.offer.tag), h.force, swapped))
    && a.answer == InstalledVersion(installed)
    && MayWrite(swapped, a.offer.binary) && a.aftermath == Tested(InstalledVersion(swapped))
  }

  /** What is heard of a binary's own output is what the fleet has it report. */
  lemma OutputIsReported(answer: Answer, b: Binary, tag: Version)
    requires MayWrite(answer, b) && FitsU64(b.version) && FitsU64(tag)
    ensures Truthful(InstalledVersion(answer), b) && (answer.Some? ==> InstalledVersion(answer) == Reported(b))
    ensures PassesSelfTest(answer, Show(tag)) <==> InstalledVersion(answer) == Some(tag)
  {
    hide Show, Prints, InstalledVersion, PassesSelfTest;
    if answer.Some? {
      PrintedIsRead(b.version, b.framed);
      SelfTestTellsVersions(b.version, b.framed, tag);
    } else {
      NoAnswer(tag);
    }
  }

  lemma NoAnswer(tag: Version)
    ensures InstalledVersion(None) == None && !PassesSelfTest(None, Show(tag))
  {}

  /** Under a scheme in which a signature verifies under its signer's key alone, the
      signature gate is exactly trust in the signer. */
  lemma SignedIffTrusted(h: Host, slots: seq<Bytes>, manifest: Bytes, signature: Bytes, signer: Bytes)
    requires SignedBy(h, slots, manifest, signature, signer)
    ensures h.check(manifest, signature).Ok? <==> signer in ActiveKeys(slots)
  {
    ActiveKeysAreTheNonZero(slots);
  }

  /** The step of the fleet is `run_with_verifier` with the installer's two questions:
      an update that comes to its self-test installs, in the code, exactly when the
      attempt gets to the swap and its file stays; never, then, when that is framed. */
  lemma StepIsTheUpdate(h: Host, latest: Option<string>, assets: map<string, Bytes>, a: Attempt, installed: Answer, swapped: Answer)
    requires PlaysOut(h, latest, assets, a, installed, swapped)
    requires FitsU64(a.running.version) && FitsU64(a.offer.tag) && FitsU64(a.offer.binary.version)
    ensures Installs(h, latest, assets) <==> Swaps(a) && Stays(a)
    ensures Installs(h, latest, assets) ==> !a.offer.binary.framed
  {
    hide Show, ParseVersion, BinaryMatches, SignedBy, TrimVs, Less, InstalledVersion, PassesSelfTest, MayWrite;
    SignedIffTrusted(h, a.running.slots, assets[MANIFEST], assets[SIGNATURE], a.offer.signer);
    ShownVersionReadsBack(a.running.version);
    ShownVersionReadsBack(a.offer.tag);
    TrimVsOfShown(a.offer.tag);
    OutputIsReported(swapped, a.offer.binary, a.offer.tag);
  }
}
