/** What holds over every run of the PIN and token state machine. */
module PinRuns {
  import opened Wrappers
  import opened PinSpec

  /** One command: when it came, what it met, what it left and what it answered. */
  datatype Event = Event(time: nat, request: Request, pre: State, post: State, outcome: Outcome)

  type Run = seq<Event>

  /** The state after a reset of an unused device. */
  const Factory: State := State(false, PIN_LOCKOUT_ATTEMPTS, PIN_BOOT_ATTEMPTS, Idle, Idle, NoFurther)

  /** The state before the n-th event. */
  function At(run: Run, n: nat): State
    requires n <= |run|
  {
    if n == 0 then Factory else run[n - 1].post
  }

  /** A run from the factory state: commands and reboots in any order. The clock starts again
      with a reboot and never goes back otherwise. */
  ghost predicate IsRun(run: Run) {
    forall i {:trigger Follows(run, i)} :: 0 <= i < |run| ==> Follows(run, i)
  }

  /** The i-th event is a step of the machine from where the one before it left off. */
  ghost predicate Follows(run: Run, i: nat)
    requires i < |run|
  {
    var e := run[i];
    && e.pre == At(run, i)
    && (e.post, e.outcome) == Step(e.pre, e.request, e.time)
    && (i > 0 && !e.request.Reboot? ==> run[i - 1].time <= e.time)
  }

  // ---------- Invariant ----------

  /** At most one token is in use, only while a PIN is set, and the counters are in range. */
  ghost predicate Sound(s: State) {
    TokensSound(s) && CountersSound(s) && s.further.index <= s.further.count < ALLOW_LIST_MAX_SIZE
  }

  ghost predicate TokensSound(s: State) {
    && (s.p1.Idle? || s.p2.Idle?)
    && (s.p1.Active? || s.p2.Active? ==> s.pinSet)
  }

  ghost predicate CountersSound(s: State) {
    && 0 <= s.tries <= PIN_LOCKOUT_ATTEMPTS && 0 <= s.boot <= PIN_BOOT_ATTEMPTS
    && (s.tries < PIN_LOCKOUT_ATTEMPTS ==> s.pinSet)
  }

  lemma StepSound(s: State, r: Request, now: nat)
    requires Sound(s)
    ensures Sound(Step(s, r, now).0)
  {
    TokensStep(s, r, now);
    CountersStep(s, r, now);
    FurtherStep(s, r, now);
  }

  lemma TokensStep(s: State, r: Request, now: nat)
    requires TokensSound(s)
    ensures TokensSound(Step(s, r, now).0)
  {
  }

  lemma CountersStep(s: State, r: Request, now: nat)
    requires CountersSound(s)
    ensures CountersSound(Step(s, r, now).0)
  {
  }

  lemma {:induction false} AlwaysSound(run: Run, n: nat)
    requires IsRun(run) && n <= |run|
    ensures Sound(At(run, n))
  {
    if n > 0 {
      AlwaysSound(run, n - 1);
      var e := run[n - 1];
      assert Follows(run, n - 1);
      StepSound(e.pre, e.request, e.time);
    }
  }

  // ---------- Retries ----------

  predicate Right(o: Outcome) { o.RightPin? || o.Issued? }

  /** Wrong PINs among the first n events since the last right one or the last reset. */
  function WrongSince(run: Run, n: nat): nat
    requires n <= |run|
  {
    if n == 0 then 0
    else match run[n - 1].outcome
      case WrongPin => WrongSince(run, n - 1) + 1
      case RightPin => 0
      case Issued(_) => 0
      case WasReset => 0
      case _ => WrongSince(run, n - 1)
  }

  /** Wrong PINs since the last reboot, or since the last right one that had wrong ones before it. */
  function WrongThisBoot(run: Run, n: nat): nat
    requires n <= |run|
  {
    if n == 0 then 0
    else match run[n - 1].outcome
      case WrongPin => WrongThisBoot(run, n - 1) + 1
      case Rebooted => 0
      case RightPin => if WrongSince(run, n - 1) == 0 then WrongThisBoot(run, n - 1) else 0
      case Issued(_) => if WrongSince(run, n - 1) == 0 then WrongThisBoot(run, n - 1) else 0
      case _ => WrongThisBoot(run, n - 1)
  }

  /** The counters say exactly how often the PIN was wrong. */
  lemma {:induction false} CountersAreExact(run: Run, n: nat)
    requires IsRun(run) && n <= |run|
    ensures At(run, n).tries == 8 - WrongSince(run, n)
    ensures At(run, n).boot == 3 - WrongThisBoot(run, n)
  {
    if n > 0 {
      CountersAreExact(run, n - 1);
      AlwaysSound(run, n - 1);
      var e := run[n - 1];
      assert Follows(run, n - 1);
      CounterStep(e.pre, e.request, e.time);
    }
  }

  /** A step moves the counters only as its outcome says. */
  lemma CounterStep(s: State, r: Request, now: nat)
    requires Sound(s)
    ensures var (t, o) := Step(s, r, now);
      && t.tries == (if o.WrongPin? then s.tries - 1 else if Right(o) || o.WasReset? then PIN_LOCKOUT_ATTEMPTS else s.tries)
      && t.boot == (if o.WrongPin? then s.boot - 1
                    else if o.Rebooted? || (Right(o) && s.tries != PIN_LOCKOUT_ATTEMPTS) then PIN_BOOT_ATTEMPTS else s.boot)
  {
  }

  /** A right PIN leaves the full number of attempts of this power cycle if and only if the persistent
      counter was not full, or none of them was missing. */
  lemma RefillsIff(run: Run, i: nat)
    requires IsRun(run) && i < |run| && Right(run[i].outcome)
    ensures run[i].post.boot == PIN_BOOT_ATTEMPTS <==>
      run[i].pre.tries < PIN_LOCKOUT_ATTEMPTS || run[i].pre.boot == PIN_BOOT_ATTEMPTS
  {
    AlwaysSound(run, i);
    assert Follows(run, i);
    CounterStep(run[i].pre, run[i].request, run[i].time);
  }

  /** After a wrong PIN and a factory reset, the right PIN does not refill them. */
  lemma NotRefilled() returns (run: Run)
    ensures IsRun(run) && |run| == 5 && run[4].outcome == Issued(1) && run[4].post.boot == 2
  {
    var setPin := SetPin(1, true, true, true);
    run := Then([], setPin);
    run := WrongPins(run, 1);
    run := Then(run, FactoryReset(true));
    assert At(run, |run|) == State(false, 8, 2, Idle, Idle, NoFurther);
    run := Then(run, setPin);
    assert At(run, |run|) == State(true, 8, 2, Idle, Idle, NoFurther);
    run := Then(run, GetPinToken(1, true, false, true));
  }

  function WrongBetween(run: Run, a: nat, b: nat): nat
    requires b <= |run|
  {
    if b <= a then 0 else WrongBetween(run, a, b - 1) + if run[b - 1].outcome.WrongPin? then 1 else 0
  }

  /** At most three wrong PINs are compared in one power cycle without a right one between them. */
  lemma {:induction false} AtMostThreePerBoot(run: Run, a: nat, b: nat)
    requires IsRun(run) && a <= b <= |run|
    requires forall i :: a <= i < b ==> !run[i].outcome.Rebooted? && !Right(run[i].outcome)
    ensures WrongBetween(run, a, b) <= 3
  {
    ThisBootGrows(run, a, b);
    CountersAreExact(run, b);
    AlwaysSound(run, b);
  }

  lemma {:induction false} ThisBootGrows(run: Run, a: nat, b: nat)
    requires a <= b <= |run|
    requires forall i :: a <= i < b ==> !run[i].outcome.Rebooted? && !Right(run[i].outcome)
    ensures WrongThisBoot(run, b) == WrongThisBoot(run, a) + WrongBetween(run, a, b)
    decreases b
  {
    if a < b { ThisBootGrows(run, a, b - 1); }
  }

  /** At most eight without a right one or a reset between them, over any number of reboots. */
  lemma {:induction false} AtMostEight(run: Run, a: nat, b: nat)
    requires IsRun(run) && a <= b <= |run|
    requires forall i :: a <= i < b ==> !run[i].outcome.WasReset? && !Right(run[i].outcome)
    ensures WrongBetween(run, a, b) <= 8
  {
    SinceGrows(run, a, b);
    CountersAreExact(run, b);
    AlwaysSound(run, b);
  }

  lemma {:induction false} SinceGrows(run: Run, a: nat, b: nat)
    requires a <= b <= |run|
    requires forall i :: a <= i < b ==> !run[i].outcome.WasReset? && !Right(run[i].outcome)
    ensures WrongSince(run, b) == WrongSince(run, a) + WrongBetween(run, a, b)
    decreases b
  {
    if a < b { SinceGrows(run, a, b - 1); }
  }

  /** A command that needs neither PIN nor token and changes neither. */
  predicate IsQuery(r: Request) {
    r.GetInfo? || r.Selection? || r.GetRetries? || r.GetKeyAgreement?
  }

  /** A locked device stays locked until it is reset: no comparison, no token, no use of one. Nothing
      but queries succeeds, and getNextAssertion on what an earlier getAssertion has left. */
  lemma {:induction false} LockedUntilReset(run: Run, a: nat, b: nat)
    requires IsRun(run) && a <= b <= |run| && At(run, a).tries == 0
    requires forall i :: a <= i < b ==> !run[i].outcome.WasReset?
    ensures At(run, b).tries == 0
    ensures forall i :: a <= i < b ==> run[i].outcome in {Denied, Done, Rebooted}
    ensures forall i :: a <= i < b && run[i].outcome == Done ==> IsQuery(run[i].request) || run[i].request.GetNextAssertion?
    ensures Fetched(run, a, b) + LeftOver(run, b) <= LeftOver(run, a)
    decreases b
  {
    if a < b {
      LockedUntilReset(run, a, b - 1);
      AlwaysSound(run, b - 1);
      var e := run[b - 1];
      assert Follows(run, b - 1);
      LockedStep(e.pre, e.request, e.time);
      FurtherIsExact(run, b);
      FurtherIsExact(run, b - 1);
    }
  }

  lemma LockedStep(s: State, r: Request, now: nat)
    requires Sound(s) && s.tries == 0
    ensures var (t, o) := Step(s, r, now);
      o.WasReset? ||
      (t.tries == 0 && o in {Denied, Done, Rebooted} && (o == Done ==> IsQuery(r) || r.GetNextAssertion?))
  {
  }

  // ---------- getNextAssertion ----------

  /** How many of the further credentials found by the last successful getAssertion are left at the n-th
      event. A reset or reboot forgets them; getNextAssertion takes one if it comes right after a
      getAssertion, successful or not, or after another successful getNextAssertion. */
  function LeftOver(run: Run, n: nat): nat
    requires n <= |run|
  {
    if n == 0 then 0
    else
      var e, left := run[n - 1], LeftOver(run, n - 1);
      if e.outcome.WasReset? || e.outcome.Rebooted? then 0
      else if e.request.GetAssertion? && Succeeds(e.outcome) then e.request.more
      else if e.request.GetNextAssertion? && MayFetch(run, n - 1) && left > 0 then left - 1
      else left
  }

  predicate MayFetch(run: Run, n: nat)
    requires n <= |run|
  {
    n > 0 && AllowsNext(run[n - 1].request, run[n - 1].outcome)
  }

  /** The state holds exactly that. */
  lemma {:induction false} FurtherIsExact(run: Run, n: nat)
    requires IsRun(run) && n <= |run|
    ensures At(run, n).further.count - At(run, n).further.index == LeftOver(run, n)
    ensures At(run, n).further.allowed <==> MayFetch(run, n)
  {
    if n > 0 {
      FurtherIsExact(run, n - 1);
      AlwaysSound(run, n - 1);
      var e := run[n - 1];
      assert Follows(run, n - 1);
      FurtherStep(e.pre, e.request, e.time);
    }
  }

  lemma FurtherStep(s: State, r: Request, now: nat)
    requires s.further.index <= s.further.count < ALLOW_LIST_MAX_SIZE
    ensures var (t, o) := Step(s, r, now);
      t.further.index <= t.further.count < ALLOW_LIST_MAX_SIZE
    ensures var (t, o) := Step(s, r, now);
      var left, left' := s.further.count - s.further.index, t.further.count - t.further.index;
      && t.further.allowed == AllowsNext(r, o)
      && left' == (if o.WasReset? || o.Rebooted? then 0
                   else if r.GetAssertion? && Succeeds(o) then r.more
                   else if r.GetNextAssertion? && s.further.allowed && left > 0 then left - 1 else left)
      && (r.GetNextAssertion? ==> (o == Done <==> r.finished && s.further.allowed && left > 0))
  {
  }

  /** getNextAssertion succeeds if and only if it may come now and a credential is left; no lock and no
      token has a say in it. */
  lemma NextAssertionIff(run: Run, i: nat)
    requires IsRun(run) && i < |run| && run[i].request.GetNextAssertion?
    ensures run[i].outcome == Done <==> run[i].request.finished && MayFetch(run, i) && LeftOver(run, i) > 0
  {
    FurtherIsExact(run, i);
    AlwaysSound(run, i);
    assert Follows(run, i);
    FurtherStep(run[i].pre, run[i].request, run[i].time);
  }

  predicate Fetches(e: Event) { e.request.GetNextAssertion? && e.outcome == Done }

  /** Successful getNextAssertion from event a on, before event b. */
  function Fetched(run: Run, a: nat, b: nat): nat
    requires b <= |run|
  {
    if b <= a then 0 else Fetched(run, a, b - 1) + if Fetches(run[b - 1]) then 1 else 0
  }

  /** Credentials are left from a successful getAssertion of this power cycle, since which there was
      neither a reset nor another one, and no more have been fetched than it found. */
  lemma {:induction false} LeftFrom(run: Run, n: nat) returns (g: nat)
    requires IsRun(run) && n <= |run| && LeftOver(run, n) > 0
    ensures g < n && run[g].request.GetAssertion? && Succeeds(run[g].outcome)
    ensures forall i :: g < i < n ==> !run[i].outcome.WasReset? && !run[i].outcome.Rebooted?
    ensures forall i :: g < i < n ==> !(run[i].request.GetAssertion? && Succeeds(run[i].outcome))
    ensures Fetched(run, g + 1, n) + LeftOver(run, n) <= run[g].request.more
  {
    var e := run[n - 1];
    if e.request.GetAssertion? && Succeeds(e.outcome) {
      g := n - 1;
    } else {
      g := LeftFrom(run, n - 1);
      if e.request.GetNextAssertion? { NextAssertionIff(run, n - 1); }
    }
  }

  /** Every assertion fetched goes back to such a getAssertion, and it gives no more than it found. */
  lemma FetchedFrom(run: Run, i: nat) returns (g: nat)
    requires IsRun(run) && i < |run| && Fetches(run[i])
    ensures g < i && run[g].request.GetAssertion? && Succeeds(run[g].outcome)
    ensures forall j :: g < j < i ==> !run[j].outcome.WasReset? && !run[j].outcome.Rebooted?
    ensures forall j :: g < j < i ==> !(run[j].request.GetAssertion? && Succeeds(run[j].outcome))
    ensures Fetched(run, g + 1, i + 1) <= run[g].request.more
  {
    NextAssertionIff(run, i);
    g := LeftFrom(run, i);
  }

  /** A locked device can still give one: after six wrong PINs in two power cycles, a getAssertion in the
      third that finds two credentials, two more wrong PINs, and a getAssertion that the lock refuses. */
  lemma LockedYetFetches() returns (run: Run)
    ensures IsRun(run) && |run| > 0 && run[|run| - 1].pre.tries == 0 && Fetches(run[|run| - 1])
  {
    var assertion := GetAssertion(0, Absent, true, true, 1, true, true, 1);
    run := Then([], SetPin(1, true, true, true));
    run := WrongPins(run, 3);
    run := WrongPins(Then(run, Reboot), 3);
    run := Then(Then(run, Reboot), assertion);
    assert At(run, |run|) == State(true, 2, 3, Idle, Idle, Further(true, 1, 0));
    run := WrongPins(run, 2);
    run := Then(run, assertion);
    assert At(run, |run|) == State(true, 0, 1, Idle, Idle, Further(true, 1, 0));
    run := Then(run, GetNextAssertion(true));
  }

  lemma {:induction false} WrongPins(run: Run, n: nat) returns (longer: Run)
    requires IsRun(run) && At(run, |run|).pinSet && 0 < n <= At(run, |run|).tries && n <= At(run, |run|).boot
    ensures IsRun(longer) && |longer| == |run| + n && Now(longer) == Now(run)
    ensures var s := At(run, |run|);
      At(longer, |longer|) == s.(tries := s.tries - n, boot := s.boot - n, further := s.further.(allowed := false))
    decreases n
  {
    longer := Then(run, GetPinToken(1, true, false, false));
    if n > 1 { longer := WrongPins(longer, n - 1); }
  }

  function Now(run: Run): nat { if |run| == 0 then 0 else run[|run| - 1].time }

  /** The run goes on with a request, at the same time. */
  function Then(run: Run, r: Request): (longer: Run)
    requires IsRun(run)
    ensures IsRun(longer) && |longer| == |run| + 1 && longer[..|run|] == run
    ensures var e := longer[|run|];
      && e.request == r && e.pre == At(run, |run|) && At(longer, |run| + 1) == e.post
      && (e.post, e.outcome) == Step(e.pre, r, e.time) && e.time == Now(run) == Now(longer)
  {
    var now, pre := Now(run), At(run, |run|);
    var (post, outcome) := Step(pre, r, now);
    var e := Event(now, r, pre, post, outcome);
    RunExtends(run, e);
    run + [e]
  }

  // ---------- Tokens ----------

  predicate Same(p: nat, q: nat) { (p == 1) == (q == 1) }

  predicate HasProtocol(r: Request) { r.MakeCredential? || r.GetAssertion? || r.CredentialManagement? }

  /** The event issued a token of protocol p. */
  predicate Issues(e: Event, p: nat) { e.outcome.Issued? && Same(e.outcome.protocol, p) }

  /** The event checked a pinUvAuthParam against the token of protocol p. */
  predicate ChecksToken(e: Event, p: nat) { HasProtocol(e.request) && Checks(e.pre, e.request) && Same(e.request.protocol, p) }

  predicate IsTokenRequest(r: Request) { r.GetPinToken? || r.GetPinTokenWithPermissions? }

  /** What an issuing request granted. */
  function GrantedBy(r: Request): bv8
    requires IsTokenRequest(r)
  {
    if r.GetPinToken? then PERM_DEFAULT else r.permissions & PERM_DEFINED
  }

  function GrantedRp(r: Request): Option<Rp>
    requires IsTokenRequest(r)
  {
    if r.GetPinToken? then None else r.rp
  }

  /** Token t of protocol p goes back to the event j that issued it and was last checked, or
      issued, at event k. */
  ghost predicate GoesBackTo(run: Run, n: nat, p: nat, t: Token, j: nat, k: nat)
    requires n <= |run| && t.Active?
  {
    && j <= k < n && Issues(run[j], p) && IsTokenRequest(run[j].request)
    && (k == j || ChecksToken(run[k], p))
    && t.start == run[j].time && t.lastUsed == run[k].time
    && t.rp == GrantedRp(run[j].request)
    && (t.permissions == GrantedBy(run[j].request) || t.permissions == 0)
    && (forall i :: j < i < n ==> !Issues(run[i], p) && !run[i].outcome.Rebooted?)
    && (forall i :: k < i < n ==> !ChecksToken(run[i], p))
    && run[j].time <= run[k].time <= run[n - 1].time
  }

  /** How an event changes the token of protocol p: a new one, none, the same one, a checked one
      or, after the check, a spent one. */
  predicate Moves(e: Event, p: nat) {
    var t, t' := e.pre.Of(p), e.post.Of(p);
    if Issues(e, p) then
      IsTokenRequest(e.request) && t' == Active(GrantedRp(e.request), GrantedBy(e.request), e.time, e.time, true, false)
    else if ChecksToken(e, p) then
      (t' == Observed(t, e.time) || t' == Spent(Observed(t, e.time))) && !e.outcome.Rebooted?
    else t' == Idle || ((t' == t || t' == Spent(t)) && !e.outcome.Rebooted?)
  }

  lemma EventMoves(run: Run, i: nat, p: nat)
    requires IsRun(run) && i < |run|
    ensures Moves(run[i], p) && run[i].pre == At(run, i) && run[i].post == At(run, i + 1)
    ensures i > 0 && !run[i].outcome.Rebooted? ==> run[i - 1].time <= run[i].time
  {
    AlwaysSound(run, i);
    assert Follows(run, i);
    StepMoves(run[i], p);
  }

  lemma StepMoves(e: Event, p: nat)
    requires Sound(e.pre) && (e.post, e.outcome) == Step(e.pre, e.request, e.time)
    ensures Moves(e, p)
  {
    if HasProtocol(e.request) {
      GuardedMoves(e, p);
    } else {
      OtherMoves(e, p);
    }
  }

  lemma GuardedMoves(e: Event, p: nat)
    requires HasProtocol(e.request) && (e.post, e.outcome) == Step(e.pre, e.request, e.time)
    ensures Moves(e, p)
  {
  }

  lemma OtherMoves(e: Event, p: nat)
    requires Sound(e.pre) && !HasProtocol(e.request) && (e.post, e.outcome) == Step(e.pre, e.request, e.time)
    ensures Moves(e, p)
  {
  }

  /** Nothing that is granted survives being spent. */
  lemma SpentIsEmpty(r: Request, p: bv8)
    requires IsTokenRequest(r) && (p == GrantedBy(r) || p == 0)
    requires r.GetPinTokenWithPermissions? ==> Granted(r).Some?
    ensures p & PERM_LBW == 0
  {
  }

  lemma {:induction false} TokenOrigin(run: Run, n: nat, p: nat) returns (j: nat, k: nat)
    requires IsRun(run) && n <= |run| && At(run, n).Of(p).Active?
    ensures GoesBackTo(run, n, p, At(run, n).Of(p), j, k)
  {
    var e := run[n - 1];
    EventMoves(run, n - 1, p);
    if Issues(e, p) {
      j, k := n - 1, n - 1;
    } else {
      j, k := TokenOrigin(run, n - 1, p);
      k := StillThere(run, n - 1, p, j, k);
    }
  }

  /** A token that an event leaves in use goes back to where it went back to before. */
  lemma StillThere(run: Run, n: nat, p: nat, j: nat, k: nat) returns (k': nat)
    requires IsRun(run) && n < |run| && !Issues(run[n], p) && At(run, n + 1).Of(p).Active?
    requires At(run, n).Of(p).Active? && GoesBackTo(run, n, p, At(run, n).Of(p), j, k)
    ensures GoesBackTo(run, n + 1, p, At(run, n + 1).Of(p), j, k')
  {
    EventMoves(run, n, p);
    SpentGrant(run, n, p, j, k);
    k' := if ChecksToken(run[n], p) then n else k;
  }

  lemma SpentGrant(run: Run, n: nat, p: nat, j: nat, k: nat)
    requires IsRun(run) && n <= |run| && At(run, n).Of(p).Active? && GoesBackTo(run, n, p, At(run, n).Of(p), j, k)
    ensures At(run, n).Of(p).permissions & PERM_LBW == 0
  {
    assert Follows(run, j);
    IssueWasGranted(run[j]);
    SpentIsEmpty(run[j].request, At(run, n).Of(p).permissions);
  }

  lemma IssueWasGranted(e: Event)
    requires (e.post, e.outcome) == Step(e.pre, e.request, e.time) && e.outcome.Issued?
    ensures IsTokenRequest(e.request) && (e.request.GetPinTokenWithPermissions? ==> Granted(e.request).Some?)
  {
  }

  /** The permission that a use needs. */
  function Needed(u: Use): bv8 {
    match u
    case Make => PERM_MC
    case AssertUp => PERM_GA
    case AssertSilent => PERM_GA
    case Manage => PERM_CM
  }

  /** The event's pinUvAuthParam was accepted: the MAC matches under a token that is still in use,
      whatever becomes of the command then. */
  predicate Accepts(e: Event) {
    && HasProtocol(e.request) && Checks(e.pre, e.request) && e.request.param.Given? && e.request.param.macOk
    && Observed(e.pre.Of(e.request.protocol), e.time).Active?
  }

  /** The token that event i relies on was issued at event j, in this power cycle and at most ten
      minutes before, and no other of its protocol since; its check before this one, or else its
      issue, was event k, at most thirty seconds before. */
  ghost predicate Fresh(run: Run, i: nat, p: nat, j: nat, k: nat)
    requires i < |run|
  {
    && j <= k < i && Issues(run[j], p) && run[j].time <= run[k].time <= run[i].time
    && run[i].time - run[j].time <= 600_000
    && run[i].time - run[k].time <= 30_000
    && (k == j || ChecksToken(run[k], p)) && (forall m :: k < m < i ==> !ChecksToken(run[m], p))
    && (forall m :: j < m < i ==> !Issues(run[m], p) && !run[m].outcome.Rebooted?)
  }

  /** Every accepted pinUvAuthParam is fresh. */
  lemma AcceptedIsFresh(run: Run, i: nat) returns (j: nat, k: nat)
    requires IsRun(run) && i < |run| && Accepts(run[i])
    ensures Fresh(run, i, run[i].request.protocol, j, k)
    ensures GoesBackTo(run, i, run[i].request.protocol, run[i].pre.Of(run[i].request.protocol), j, k)
  {
    assert Follows(run, i);
    j, k := TokenOrigin(run, i, run[i].request.protocol);
  }

  /** The relying party that the request's own parameter names. */
  function ClaimedRp(r: Request): Option<Rp> {
    match r
    case MakeCredential(_, _, _, _, rpId, _, _) => Some(rpId)
    case GetAssertion(_, _, _, _, rpId, _, _, _) => Some(rpId)
    case CredentialManagement(_, _, NextItem) => None
    case CredentialManagement(_, _, AllRps) => None
    case CredentialManagement(_, _, target) => Some(target.claimed)
    case _ => None
  }

  /** The relying party whose credentials the request makes, uses, lists or changes. */
  function ActsOn(r: Request): Option<Rp> {
    match r
    case MakeCredential(_, _, _, _, rpId, _, _) => Some(rpId)
    case GetAssertion(_, _, _, _, rpId, _, _, _) => Some(rpId)
    case CredentialManagement(_, _, CredentialsOf(claimed)) => Some(claimed)
    case CredentialManagement(_, _, OneCredential(_, owner)) => Some(owner)
    case _ => None
  }

  /** A grant for no relying party in particular, or for this one. */
  predicate Covered(grant: Option<Rp>, rp: Option<Rp>) { grant == None || grant == rp }

  /** Whatever a token authorises, its param was accepted, so it is fresh; the token was issued with
      the permission that is needed and, if for a relying party, for the one the request names. */
  lemma AuthorisedIsGranted(run: Run, i: nat) returns (j: nat, k: nat)
    requires IsRun(run) && i < |run| && run[i].outcome.Authorised?
    ensures Accepts(run[i]) && run[i].request.protocol == run[i].outcome.protocol
    ensures Fresh(run, i, run[i].outcome.protocol, j, k)
    ensures IsTokenRequest(run[j].request) && Has(GrantedBy(run[j].request), Needed(run[i].outcome.use))
    ensures Covered(GrantedRp(run[j].request), ClaimedRp(run[i].request))
  {
    var e := run[i];
    assert Follows(run, i);
    AuthorisedStep(e.pre, e.request, e.time);
    j, k := AcceptedIsFresh(run, i);
  }

  lemma AuthorisedStep(s: State, r: Request, now: nat)
    requires Step(s, r, now).1.Authorised?
    ensures var o := Step(s, r, now).1;
      var t := s.Of(o.protocol);
      && HasProtocol(r) && Checks(s, r) && r.param.Given? && r.param.macOk && r.protocol == o.protocol
      && Observed(t, now).Active? && Has(t.permissions, Needed(o.use)) && Covered(t.rp, ClaimedRp(r))
      && (o.use == Make || o.use == AssertUp ==> t.verified)
  {
  }

  /** What is authorised acts on the relying party that the token was issued for if and only if that
      is the one the request names, or the token is for none in particular. */
  lemma ActsAsGrantedIff(run: Run, i: nat) returns (j: nat, k: nat)
    requires IsRun(run) && i < |run| && run[i].outcome.Authorised? && ActsOn(run[i].request).Some?
    ensures Fresh(run, i, run[i].outcome.protocol, j, k) && IsTokenRequest(run[j].request)
    ensures var grant := GrantedRp(run[j].request);
      Covered(grant, ActsOn(run[i].request)) <==> grant == None || ClaimedRp(run[i].request) == ActsOn(run[i].request)
  {
    j, k := AuthorisedIsGranted(run, i);
  }

  /** makeCredential, getAssertion and the listing of credentials always do. */
  lemma NamesWhatItActsOn(r: Request)
    requires ActsOn(r).Some? && !(r.CredentialManagement? && r.target.OneCredential?)
    ensures ClaimedRp(r) == ActsOn(r)
  {
  }

  /** Deleting or updating one credential need not: with a token for relying party 1 a command that
      names 1 acts on a credential of relying party 2. */
  lemma OtherOwner() returns (run: Run)
    ensures IsRun(run) && |run| == 3 && run[2].outcome == Authorised(1, Manage)
    ensures run[1].outcome == Issued(1) && IsTokenRequest(run[1].request)
    ensures GrantedRp(run[1].request) == Some(1) && ActsOn(run[2].request) == Some(2)
  {
    run := Then([], SetPin(1, true, true, true));
    assert At(run, |run|) == State(true, 8, 3, Idle, Idle, NoFurther);
    run := ManagerToken(run, Some(1));
    var e := run[1];
    run := Then(run, CredentialManagement(1, Given(true), OneCredential(1, 2)));
    assert run[..2][1] == e;
  }

  /** A right PIN gets a token for credential management. */
  lemma ManagerToken(run: Run, rp: Option<Rp>) returns (longer: Run)
    requires IsRun(run) && At(run, |run|) == State(true, 8, 3, Idle, Idle, NoFurther)
    ensures IsRun(longer) && |longer| == |run| + 1 && longer[..|run|] == run && longer[|run|].outcome == Issued(1)
    ensures longer[|run|].request == GetPinTokenWithPermissions(1, true, PERM_CM, rp, true)
    ensures var now := longer[|run|].time;
      At(longer, |longer|) == State(true, 8, 3, Active(rp, PERM_CM, now, now, true, false), Idle, NoFurther)
  {
    assert PERM_CM & PERM_DEFINED == PERM_CM && PERM_CM & PERM_UNSUPPORTED == 0 && PERM_CM & PERM_DEFAULT == 0;
    longer := Then(run, GetPinTokenWithPermissions(1, true, PERM_CM, rp, true));
  }

  lemma RunExtends(run: Run, e: Event)
    requires IsRun(run) && e.pre == At(run, |run|) && (e.post, e.outcome) == Step(e.pre, e.request, e.time)
    requires |run| > 0 && !e.request.Reboot? ==> run[|run| - 1].time <= e.time
    ensures IsRun(run + [e]) && At(run + [e], |run| + 1) == e.post
  {
    var longer := run + [e];
    forall i | 0 <= i < |longer|
      ensures Follows(longer, i)
    {
      if i < |run| { assert Follows(run, i); }
    }
  }

  // ---------- When a token is needed ----------

  predicate Succeeds(o: Outcome) { o.Authorised? || o.Done? }

  /** A successful makeCredential was authorised by a token if and only if a PIN was set, a successful
      getAssertion if and only if it came with a pinUvAuthParam, and credential management always,
      except to continue an enumeration. */
  lemma AuthorisedIff(run: Run, i: nat)
    requires IsRun(run) && i < |run| && HasProtocol(run[i].request) && Succeeds(run[i].outcome)
    ensures run[i].outcome.Authorised? <==>
      match run[i].request
      case MakeCredential(_, _, _, _, _, _, _) => run[i].pre.pinSet
      case GetAssertion(_, param, _, _, _, _, _, _) => param.Given?
      case CredentialManagement(_, _, target) => target != NextItem
  {
    assert Follows(run, i);
  }

  /** Without a PIN makeCredential succeeds again and again and needs no token. */
  lemma UnprotectedWithoutPin(r: Request, now: nat)
    requires r == MakeCredential(0, Absent, true, true, 0, true, true)
    ensures Step(Factory, r, now) == (Factory, Done)
  {
  }

  // ---------- One use per token ----------

  /** A successful makeCredential while a PIN is set, or a successful getAssertion with user presence
      that came with a pinUvAuthParam. */
  predicate ProtectedUse(e: Event) {
    && Succeeds(e.outcome)
    && ((e.request.MakeCredential? && e.pre.pinSet) || (e.request.GetAssertion? && e.request.up && e.request.param.Given?))
  }

  predicate Consumes(o: Outcome) { o.Authorised? && (o.use == Make || o.use == AssertUp) }

  lemma ProtectedUseConsumes(run: Run, i: nat)
    requires IsRun(run) && i < |run| && ProtectedUse(run[i])
    ensures Consumes(run[i].outcome)
  {
    AuthorisedIff(run, i);
    assert Follows(run, i);
  }

  /** Event i relies on the token that event j issued. */
  ghost predicate ReliesOn(run: Run, i: nat, j: nat)
    requires i < |run|
  {
    && j < i && HasProtocol(run[i].request) && Issues(run[j], run[i].request.protocol)
    && forall m :: j < m < i ==> !Issues(run[m], run[i].request.protocol) && !run[m].outcome.Rebooted?
  }

  /** Each protected use relies on an issued token. */
  lemma ReliesOnSome(run: Run, i: nat) returns (j: nat)
    requires IsRun(run) && i < |run| && ProtectedUse(run[i])
    ensures ReliesOn(run, i, j)
  {
    var k;
    ProtectedUseConsumes(run, i);
    j, k := AuthorisedIsGranted(run, i);
  }

  /** The token of a later protected use was issued after the earlier one. */
  lemma LaterToken(run: Run, a: nat, b: nat, j: nat)
    requires IsRun(run) && a < b < |run| && ProtectedUse(run[a]) && ProtectedUse(run[b]) && ReliesOn(run, b, j)
    ensures a < j < b
  {
    var p := run[b].request.protocol;
    ProtectedUseConsumes(run, a);
    ProtectedUseConsumes(run, b);
    AlwaysSound(run, a);
    assert Follows(run, a) && Follows(run, b);
    ConsumingStep(run[a].pre, run[a].request, run[a].time, p);
    AuthorisedStep(run[b].pre, run[b].request, run[b].time);
    if j <= a {
      StaysUnverified(run, a + 1, b, p);
      assert false;
    }
  }

  /** And no two rely on the same one: each issued token lets at most one makeCredential, or
      getAssertion with user presence, succeed. */
  lemma OneUsePerToken(run: Run, j: nat, a: nat, b: nat)
    requires IsRun(run) && a < |run| && b < |run| && ProtectedUse(run[a]) && ProtectedUse(run[b])
    requires ReliesOn(run, a, j) && ReliesOn(run, b, j)
    ensures a == b
  {
    if a < b {
      LaterToken(run, a, b, j);
    } else if b < a {
      LaterToken(run, b, a, j);
    }
  }

  /** A token that allows no protected use. */
  predicate Unverified(t: Token) { t.Active? ==> !t.verified }

  lemma ConsumingStep(s: State, r: Request, now: nat, p: nat)
    requires Sound(s) && Consumes(Step(s, r, now).1)
    ensures Unverified(Step(s, r, now).0.Of(p))
  {
  }

  lemma {:induction false} StaysUnverified(run: Run, a: nat, b: nat, p: nat)
    requires IsRun(run) && a <= b < |run| && Unverified(At(run, a).Of(p))
    requires forall i :: a <= i < b ==> !Issues(run[i], p)
    ensures Unverified(At(run, b).Of(p))
    decreases b
  {
    if a < b {
      StaysUnverified(run, a, b - 1, p);
      EventMoves(run, b - 1, p);
    }
  }
}
