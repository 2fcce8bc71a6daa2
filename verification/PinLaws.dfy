/** What the commands do, said of every run in the terms of CTAP 2.1 (section 6.5): when a PIN is compared,
    a token issued, a PIN set, the device reset, and a command authorised. */
module PinLaws {
  import opened Wrappers
  import opened PinSpec
  import opened PinRuns

  /** The token of a protocol; everything that is not protocol 1 uses the other one. */
  function TokenOf(s: State, protocol: nat): Token { if protocol == 1 then s.p1 else s.p2 }

  // ---------- PINs ----------

  /** The command comes as far as comparing a PIN with the stored one. */
  predicate Compares(e: Event) {
    e.pre.pinSet && e.pre.tries > 0 && e.pre.boot > 0 &&
    match e.request
    case ChangePin(protocol, complete, macOk, policyOk, _) =>
      (protocol == 1 || protocol == 2) && complete && macOk && policyOk
    case GetPinToken(protocol, complete, extras, _) => (protocol == 1 || protocol == 2) && complete && !extras
    case GetPinTokenWithPermissions(protocol, complete, permissions, rp, _) =>
      && (protocol == 1 || protocol == 2) && complete && permissions != 0 && permissions & 0x38 == 0
      && (permissions & 0x03 != 0 ==> rp.Some?)
    case _ => false
  }

  /** A token is issued, a PIN changed or an attempt lost exactly if the PIN is compared, as it matches. */
  lemma ComparedIff(run: Run, i: nat)
    requires IsRun(run) && i < |run|
    ensures var e := run[i];
      && (e.outcome.WrongPin? <==> Compares(e) && !e.request.matches)
      && (e.outcome.RightPin? <==> Compares(e) && e.request.matches && e.request.ChangePin?)
      && (e.outcome.Issued? <==> Compares(e) && e.request.matches && !e.request.ChangePin?)
      && (e.outcome.Issued? ==> e.outcome.protocol == e.request.protocol)
  {
    assert Follows(run, i);
    Masks(run[i].request);
  }

  lemma Masks(r: Request)
    ensures r.GetPinTokenWithPermissions? ==>
      (Granted(r).Some? <==> r.permissions != 0 && r.permissions & 0x38 == 0 && (r.permissions & 0x03 != 0 ==> r.rp.Some?))
    ensures r.GetPinTokenWithPermissions? && Granted(r).Some? ==> Granted(r).value == r.permissions & 0x3f
  {
  }

  /** What the issued token is good for, and since when. */
  function NewToken(e: Event): (t: Token)
    requires e.request.GetPinToken? || e.request.GetPinTokenWithPermissions?
    ensures t.Active?
  {
    if e.request.GetPinToken? then Active(None, 0x03, e.time, e.time, true, false)
    else Active(e.request.rp, e.request.permissions & 0x3f, e.time, e.time, true, false)
  }

  /** It is the only one. A changed PIN, a reset and a reboot leave none. */
  lemma OnlyToken(run: Run, i: nat)
    requires IsRun(run) && i < |run|
    ensures var e := run[i];
      && (e.outcome.Issued? ==>
            && (e.request.GetPinToken? || e.request.GetPinTokenWithPermissions?)
            && TokenOf(e.post, e.request.protocol) == NewToken(e) && (if e.request.protocol == 1 then e.post.p2 else e.post.p1) == Idle)
      && (e.outcome.RightPin? || e.outcome.WasReset? || e.outcome.Rebooted? ==> e.post.p1 == Idle && e.post.p2 == Idle)
  {
    assert Follows(run, i);
    Masks(run[i].request);
  }

  /** A PIN is set by a complete setPIN with the right MAC and a good PIN while there is none, and unset by a
      reset; nothing else changes that. */
  lemma PinSetIff(run: Run, i: nat)
    requires IsRun(run) && i < |run|
    ensures var e := run[i];
      && (!e.pre.pinSet && e.post.pinSet <==>
            && !e.pre.pinSet && e.request.SetPin? && (e.request.protocol == 1 || e.request.protocol == 2)
            && e.request.complete && e.request.macOk && e.request.policyOk)
      && (e.request.SetPin? ==> (e.outcome == Done <==> !e.pre.pinSet && e.post.pinSet) && e.outcome in {Done, Denied})
      && (e.pre.pinSet && !e.post.pinSet <==> e.pre.pinSet && e.outcome.WasReset?)
  {
    assert Follows(run, i);
  }

  /** The device is reset exactly by a factory reset with user presence within ten seconds of power-up, and
      that keeps only the attempts of this power cycle. A reboot keeps the PIN and its counter. */
  lemma ResetIff(run: Run, i: nat)
    requires IsRun(run) && i < |run|
    ensures var e := run[i];
      && (e.outcome.WasReset? <==> e.request == FactoryReset(true) && e.time <= 10_000)
      && (e.outcome.WasReset? ==> e.post == State(false, 8, e.pre.boot, Idle, Idle, Further(false, 0, 0)))
      && (e.outcome.Rebooted? <==> e.request.Reboot?)
      && (e.outcome.Rebooted? ==> e.post == State(e.pre.pinSet, e.pre.tries, 3, Idle, Idle, Further(false, 0, 0)))
  {
    assert Follows(run, i);
  }

  // ---------- Commands ----------

  /** The token is in use, ten minutes old at most and checked in the last thirty seconds, and has the
      permission. */
  predicate Alive(t: Token, now: nat, permission: bv8) {
    t.Active? && now - t.start <= 600_000 && now - t.lastUsed <= 30_000 && t.permissions & permission != 0
  }

  predicate For(t: Token, rp: Rp) { t.Active? ==> t.rp == None || t.rp == Some(rp) }

  /** makeCredential may go on: neither lock, all parameters, user presence, and with a PIN set a right
      pinUvAuthParam under a token that was verified for this relying party. */
  predicate MayMake(e: Event)
    requires e.request.MakeCredential?
  {
    var r, t := e.request, TokenOf(e.pre, e.request.protocol);
    && e.pre.tries > 0 && e.pre.boot > 0 && r.complete && r.up
    && if e.pre.pinSet then r.param == Given(true) && Alive(t, e.time, 0x01) && For(t, r.rpId) && t.verified
       else r.param != Empty
  }

  /** getAssertion may go on: with a pinUvAuthParam only if that is right, without one in any case. */
  predicate MayAssert(e: Event)
    requires e.request.GetAssertion?
  {
    var r, t := e.request, TokenOf(e.pre, e.request.protocol);
    && e.pre.tries > 0 && e.pre.boot > 0 && r.complete
    && (r.param == Absent ||
        (r.param == Given(true) && r.protocol != 0 && Alive(t, e.time, 0x02) && For(t, r.rpId) && t.verified))
  }

  predicate MayManage(e: Event)
    requires e.request.CredentialManagement?
  {
    var r, t := e.request, TokenOf(e.pre, e.request.protocol);
    && e.pre.tries > 0 && e.pre.boot > 0
    && if r.target == NextItem then r.param != Empty
       else r.param == Given(true) && (r.protocol == 1 || r.protocol == 2) && Alive(t, e.time, 0x04)
            && if r.target == AllRps then t.rp == None else For(t, r.target.claimed)
  }

  /** The three commands succeed exactly if they may go on and the rest of their work is done. */
  lemma SucceedsIff(run: Run, i: nat)
    requires IsRun(run) && i < |run|
    ensures var e := run[i];
      && (e.request.MakeCredential? ==> (Succeeds(e.outcome) <==> MayMake(e) && e.request.made && e.request.finished))
      && (e.request.GetAssertion? ==>
            (Succeeds(e.outcome) <==> MayAssert(e) && e.request.made && e.request.finished && e.request.more < 20))
      && (e.request.CredentialManagement? ==> (Succeeds(e.outcome) <==> MayManage(e)))
  {
    assert Follows(run, i);
    AlwaysSound(run, i);
  }

  /** The other commands succeed whatever the state is. */
  lemma QueriesSucceed(run: Run, i: nat)
    requires IsRun(run) && i < |run|
    ensures match run[i].request
      case GetInfo => run[i].outcome == Done
      case GetRetries => run[i].outcome == Done
      case GetKeyAgreement(protocol) => run[i].outcome == Done <==> protocol == 1 || protocol == 2
      case Selection(userPresent) => run[i].outcome == Done <==> userPresent
      case UnknownCommand => run[i].outcome == Denied
      case _ => true
  {
    assert Follows(run, i);
  }

  // ---------- What becomes of a token ----------

  /** The command checks its pinUvAuthParam against the token of protocol p. */
  predicate ChecksParam(e: Event, p: nat) {
    e.pre.tries > 0 && e.pre.boot > 0 &&
    match e.request
    case MakeCredential(protocol, param, complete, _, _, _, _) =>
      (protocol == 1) == (p == 1) && e.pre.pinSet && complete && param.Given?
    case GetAssertion(protocol, param, complete, _, _, _, _, _) =>
      (protocol == 1) == (p == 1) && complete && param.Given? && protocol != 0
    case CredentialManagement(protocol, param, target) =>
      (protocol == 1) == (p == 1) && target != NextItem && param.Given? && (protocol == 1 || protocol == 2)
    case _ => false
  }

  /** The command uses up the token of protocol p: its authenticator data was made with user presence,
      whether or not the rest succeeds. */
  predicate UsesUp(e: Event, p: nat) {
    match e.request
    case MakeCredential(protocol, _, _, _, _, made, _) => (protocol == 1) == (p == 1) && MayMake(e) && made
    case GetAssertion(protocol, _, _, up, _, made, _, _) => (protocol == 1) == (p == 1) && MayAssert(e) && made && up
    case _ => false
  }

  /** A check that comes too late ends the token. */
  predicate TooLate(t: Token, now: nat) { t.Active? && (now - t.start > 600_000 || now - t.lastUsed > 30_000) }

  /** The token after the event: a new one, none, or the same one, checked and used up as it may be. */
  function After(e: Event, p: nat): Token {
    var t := TokenOf(e.pre, p);
    if e.outcome.RightPin? || e.outcome.WasReset? || e.outcome.Rebooted? then Idle
    else if e.outcome.Issued? && (e.request.GetPinToken? || e.request.GetPinTokenWithPermissions?) then
      (if (e.request.protocol == 1) == (p == 1) then NewToken(e) else Idle)
    else if t.Idle? || (ChecksParam(e, p) && TooLate(t, e.time)) then Idle
    else
      var c := if ChecksParam(e, p)
               then t.(lastUsed := e.time, present := t.present && e.time - t.start <= 30_000) else t;
      if UsesUp(e, p) then c.(present := false, verified := false, permissions := c.permissions & 0x10) else c
  }

  lemma TokenAfter(run: Run, i: nat, p: nat)
    requires IsRun(run) && i < |run| && (p == 1 || p == 2)
    ensures TokenOf(run[i].post, p) == After(run[i], p)
  {
    assert Follows(run, i);
    AlwaysSound(run, i);
    Masks(run[i].request);
    var e := run[i];
    if e.request.MakeCredential? {
      MakeAfter(e, p);
    } else if e.request.GetAssertion? {
      AssertAfter(e, p);
    } else if e.request.CredentialManagement? {
      ManageAfter(e, p);
    } else if e.request.GetPinToken? || e.request.GetPinTokenWithPermissions? {
      IssueAfter(e, p);
    } else {
      OtherAfter(e, p);
    }
  }

  lemma IssueAfter(e: Event, p: nat)
    requires (e.request.GetPinToken? || e.request.GetPinTokenWithPermissions?) && (p == 1 || p == 2)
    requires (e.post, e.outcome) == Step(e.pre, e.request, e.time)
    ensures TokenOf(e.post, p) == After(e, p)
  {
    Masks(e.request);
  }

  lemma MakeAfter(e: Event, p: nat)
    requires e.request.MakeCredential? && (p == 1 || p == 2) && Sound(e.pre) && (e.post, e.outcome) == Step(e.pre, e.request, e.time)
    ensures TokenOf(e.post, p) == After(e, p)
  {
  }

  lemma AssertAfter(e: Event, p: nat)
    requires e.request.GetAssertion? && (p == 1 || p == 2) && (e.post, e.outcome) == Step(e.pre, e.request, e.time)
    ensures TokenOf(e.post, p) == After(e, p)
  {
  }

  lemma ManageAfter(e: Event, p: nat)
    requires e.request.CredentialManagement? && (p == 1 || p == 2) && (e.post, e.outcome) == Step(e.pre, e.request, e.time)
    ensures TokenOf(e.post, p) == After(e, p)
  {
  }

  lemma OtherAfter(e: Event, p: nat)
    requires !HasProtocol(e.request) && !e.request.GetPinToken? && !e.request.GetPinTokenWithPermissions?
    requires (p == 1 || p == 2) && (e.post, e.outcome) == Step(e.pre, e.request, e.time)
    ensures TokenOf(e.post, p) == After(e, p)
  {
  }

  // ---------- A fresh token serves ----------

  /** When the token of protocol p that event j issued was last checked before event n, or else issued. */
  function LastCheck(run: Run, j: nat, n: nat, p: nat): nat
    requires j < n <= |run|
    decreases n
  {
    if n == j + 1 then run[j].time
    else if ChecksParam(run[n - 1], p) then run[n - 1].time else LastCheck(run, j, n - 1, p)
  }

  /** Between events j and n nothing ends or uses up the token: no right PIN, reset or reboot, no use, and no
      check that is late. */
  ghost predicate Undisturbed(run: Run, j: nat, n: nat, p: nat)
    requires j < n <= |run|
  {
    forall m {:trigger Leaves(run, j, m, p)} :: j < m < n ==> Leaves(run, j, m, p)
  }

  predicate Leaves(run: Run, j: nat, m: nat, p: nat)
    requires j < m < |run|
  {
    var e := run[m];
    && !Right(e.outcome) && !e.outcome.WasReset? && !e.outcome.Rebooted? && !UsesUp(e, p)
    && (ChecksParam(e, p) ==> e.time - run[j].time <= 600_000 && e.time - LastCheck(run, j, m, p) <= 30_000)
  }

  function CheckedAt(t: Token, time: nat): Token { if t.Active? then t.(lastUsed := time) else t }

  /** Then it is as it was issued, but for the time of the last check. */
  lemma {:induction false} StillGood(run: Run, j: nat, n: nat, p: nat)
    requires IsRun(run) && j < n <= |run| && (p == 1 || p == 2) && run[j].outcome == Issued(p) && Undisturbed(run, j, n, p)
    ensures run[j].request.GetPinToken? || run[j].request.GetPinTokenWithPermissions?
    ensures TokenOf(At(run, n), p) == CheckedAt(NewToken(run[j]), LastCheck(run, j, n, p))
    decreases n
  {
    OnlyToken(run, j);
    ComparedIff(run, j);
    if n > j + 1 {
      forall m | j < m < n - 1 ensures Leaves(run, j, m, p) { assert Leaves(run, j, m, p); }
      StillGood(run, j, n - 1, p);
      assert Leaves(run, j, n - 1, p);
      assert Follows(run, n - 1);
      TokenAfter(run, n - 1, p);
    }
  }

  /** A command with the right pinUvAuthParam, all its parameters and user presence succeeds while the token
      it names is undisturbed and in time, and was issued with the permission and for the relying party. */
  lemma FreshTokenServes(run: Run, j: nat, i: nat)
    requires IsRun(run) && j < i < |run| && (run[i].request.MakeCredential? || run[i].request.GetAssertion?)
    requires var r, p, g := run[i].request, run[i].request.protocol, NewTokenAt(run, j);
      && (p == 1 || p == 2) && run[j].outcome == Issued(p) && Undisturbed(run, j, i, p)
      && run[i].pre.tries > 0 && run[i].pre.boot > 0 && r.complete && r.up && r.param == Given(true)
      && r.made && r.finished && (r.GetAssertion? ==> r.more < 20)
      && run[i].time - run[j].time <= 600_000 && run[i].time - LastCheck(run, j, i, p) <= 30_000
      && g.Active? && g.permissions & (if r.MakeCredential? then 0x01 else 0x02) != 0 && (g.rp == None || g.rp == Some(r.rpId))
    ensures Succeeds(run[i].outcome)
  {
    StillGood(run, j, i, run[i].request.protocol);
    assert Follows(run, i);
    SucceedsIff(run, i);
  }

  function NewTokenAt(run: Run, j: nat): Token
    requires j < |run|
  {
    if run[j].request.GetPinToken? || run[j].request.GetPinTokenWithPermissions? then NewToken(run[j]) else Idle
  }
}
