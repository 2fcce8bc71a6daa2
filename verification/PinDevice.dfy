/** The functions of fido2/src/ctap_client_pin.c and their callers, over the fields they update.
    Each is proved to do what PinSpec says. */
module PinDevice {
  import opened Wrappers
  import opened PinSpec
  import opened PinRuns

  const UINT32: nat := 0x1_0000_0000

  /** a - b on uint32_t. */
  function Sub32(a: nat, b: nat): nat { (a - b) % UINT32 }

  lemma Sub32Exact(a: nat, b: nat)
    requires b <= a < UINT32
    ensures Sub32(a, b) == a - b
  {
  }

  const CTAP_GET_ASSERTION: nat := 0x02

  /** The command byte of a request; what is not known counts as 0xff. */
  function CommandByte(r: Request): nat {
    match r
    case MakeCredential(_, _, _, _, _, _, _) => 0x01
    case GetAssertion(_, _, _, _, _, _, _, _) => CTAP_GET_ASSERTION
    case GetInfo => 0x04
    case FactoryReset(_) => 0x07
    case GetNextAssertion(_) => 0x08
    case CredentialManagement(_, _, _) => 0x0a
    case Selection(_) => 0x0b
    case UnknownCommand => 0xff
    case _ => 0x06
  }

  /** pinUvAuthToken_state_t; rp is permissions_rp_id_hash with its presence flag. */
  class TokenState {
    var rp: Option<Rp>
    var permissions: bv8
    var start: nat
    var lastUsed: nat
    var inUse: bool
    var verified: bool
    var present: bool

    function Abs(): Token
      reads this
    {
      if inUse then Active(rp, permissions, start, lastUsed, verified, present) else Idle
    }

    /** A token that is not in use is all zero; the timers lie in the past. */
    ghost predicate Valid(clock: nat)
      reads this
    {
      && (!inUse ==> rp == None && permissions == 0 && start == 0 && lastUsed == 0 && !verified && !present)
      && start <= clock && lastUsed <= clock
    }

    constructor ()
      ensures Valid(0) && !inUse
    {
      rp, permissions, start, lastUsed, inUse, verified, present := None, 0, 0, 0, false, false, false;
    }

    /** stop_using_pinUvAuthToken, and the wipe in reset_pinUvAuthToken. */
    method Stop()
      modifies this
      ensures Abs() == Idle && Valid(0)
    {
      rp, permissions, start, lastUsed, inUse, verified, present := None, 0, 0, 0, false, false, false;
    }

    /** begin_using_pinUvAuthToken and associate_permissions_rp_id on a wiped state. */
    method Begin(userIsPresent: bool, permissions': bv8, rp': Option<Rp>, now: nat)
      requires Valid(now) && !inUse
      modifies this
      ensures Valid(now) && Abs() == Active(rp', permissions', now, now, true, userIsPresent)
    {
      present := userIsPresent;
      permissions := permissions';
      verified := true;
      inUse := true;
      start := now;
      lastUsed := now;
      if rp' != None {
        rp := rp';
      }
    }

    /** pinUvAuthToken_usage_time_observer: three checks in a row, of which the first two go on. */
    method Observe(now: nat)
      requires Valid(now) && now < UINT32
      modifies this
      ensures Valid(now) && Abs() == Observed(old(Abs()), now)
    {
      if !inUse {
        return;
      }
      Sub32Exact(now, start);
      Sub32Exact(now, lastUsed);
      if Sub32(now, start) > TOKEN_MAX_USAGE_PERIOD_MS {
        Stop();
      }
      Sub32Exact(now, start);
      Sub32Exact(now, lastUsed);
      if Sub32(now, start) > TOKEN_MAX_USER_PRESENT_MS {
        ClearUserPresent();
      }
      if Sub32(now, lastUsed) > TOKEN_MAX_USER_PRESENT_MS {
        Stop();
        return;
      }
      lastUsed := now;
    }

    /** ctap_client_pin_clear_user_present. */
    method ClearUserPresent()
      modifies this`present
      ensures present == (old(present) && !inUse)
    {
      if inUse {
        present := false;
      }
    }

    /** The three clear functions that makeCredential and getAssertion call in a row. */
    method Spend(ghost now: nat)
      requires Valid(now)
      modifies this
      ensures Valid(now) && Abs() == Spent(old(Abs()))
    {
      ClearUserPresent();
      if inUse {
        verified := false;
      }
      if inUse {
        permissions := permissions & PERM_LBW;
      }
    }
  }

  class Authenticator {
    const t1: TokenState
    const t2: TokenState
    var isPinSet: nat
    var remainingTries: int
    var bootAttemptsLeft: int
    var lastcmd: nat        // of getAssertionState, with count and index
    var count: nat
    var index: nat
    ghost var clock: nat

    ghost predicate Valid()
      reads this, t1, t2
    {
      t1 != t2 && t1.Valid(clock) && t2.Valid(clock) && isPinSet <= 1
    }

    function Abs(): State
      reads this, t1, t2
    {
      State(isPinSet == 1, remainingTries, bootAttemptsLeft, t1.Abs(), t2.Abs(),
            Further(lastcmd == CTAP_GET_ASSERTION, count, index))
    }

    /** A device with freshly initialised state. */
    constructor ()
      ensures Valid() && clock == 0 && fresh(t1) && fresh(t2)
      ensures Abs() == State(false, PIN_LOCKOUT_ATTEMPTS, PIN_BOOT_ATTEMPTS, Idle, Idle, NoFurther)
    {
      t1 := new TokenState();
      t2 := new TokenState();
      isPinSet, remainingTries, bootAttemptsLeft := 0, PIN_LOCKOUT_ATTEMPTS, PIN_BOOT_ATTEMPTS;
      lastcmd, count, index := 0, 0, 0;
      clock := 0;
    }

    /** get_pin_protocol_state. */
    function Of(protocol: nat): (t: TokenState)
      reads this
      ensures t == t1 || t == t2
    {
      if protocol == 1 then t1 else t2
    }

    // ---------- Attempts ----------

    method DecrementPinAttempts()
      requires Valid()
      modifies this`remainingTries, this`bootAttemptsLeft
      ensures Valid() && Abs() == Missed(old(Abs()))
    {
      if bootAttemptsLeft > 0 {
        bootAttemptsLeft := bootAttemptsLeft - 1;
      }
      if !(remainingTries <= 0) {
        remainingTries := remainingTries - 1;
      }
    }

    method ResetPinAttempts()
      modifies this`remainingTries, this`bootAttemptsLeft
      ensures remainingTries == PIN_LOCKOUT_ATTEMPTS
      ensures bootAttemptsLeft == if old(remainingTries) == PIN_LOCKOUT_ATTEMPTS then old(bootAttemptsLeft) else PIN_BOOT_ATTEMPTS
    {
      if remainingTries == PIN_LOCKOUT_ATTEMPTS {
        return;
      }
      bootAttemptsLeft := PIN_BOOT_ATTEMPTS;
      remainingTries := PIN_LOCKOUT_ATTEMPTS;
    }

    /** A right PIN: attempts and both tokens start again. */
    method PinMatched()
      requires Valid()
      modifies this`remainingTries, this`bootAttemptsLeft, t1, t2
      ensures Valid() && Abs() == Matched(old(Abs()))
    {
      ResetPinAttempts();
      t1.Stop();
      t2.Stop();
    }

    /** add_enc_pinUvAuthToken. */
    method AddEncPinUvAuthToken(matches: bool, protocol: nat, permissions: bv8, rp: Option<Rp>, now: nat) returns (o: Outcome)
      requires Valid() && clock == now
      modifies this`remainingTries, this`bootAttemptsLeft, t1, t2
      ensures Valid() && (Abs(), o) == Issue(old(Abs()), protocol, permissions, rp, matches, now)
    {
      if !matches {
        DecrementPinAttempts();
        return WrongPin;
      }
      PinMatched();
      Of(protocol).Begin(false, permissions, rp, now);
      return Issued(protocol);
    }

    /** update_pin_if_verified; checkOld is pinHashEnc != NULL. */
    method UpdatePinIfVerified(macOk: bool, policyOk: bool, checkOld: bool, matches: bool) returns (o: Outcome)
      requires Valid() && (checkOld ==> isPinSet == 1)
      modifies this`remainingTries, this`bootAttemptsLeft, this`isPinSet, t1, t2
      ensures Valid()
      ensures (Abs(), o) == (
        if !macOk || !policyOk then (old(Abs()), Denied)
        else if !checkOld then (old(Abs()).(pinSet := true), Done)
        else if matches then (Matched(old(Abs())), RightPin)
        else (Missed(old(Abs())), WrongPin))
    {
      if !macOk {
        return Denied;
      }
      if !policyOk {
        return Denied;
      }
      o := Done;
      if isPinSet == 1 && checkOld {
        if !matches {
          DecrementPinAttempts();
          return WrongPin;
        }
        PinMatched();
        o := RightPin;
      }
      isPinSet := 1; // store_pin
    }

    /** ctap_client_pin: first the subcommands that work on a locked device, then the others. */
    method ClientPinCommand(r: Request, now: nat) returns (o: Outcome)
      requires Valid() && clock == now
      requires r.SetPin? || r.ChangePin? || r.GetPinToken? || r.GetPinTokenWithPermissions?
      modifies this`remainingTries, this`bootAttemptsLeft, this`isPinSet, t1, t2
      ensures Valid() && (Abs(), o) == ClientPin(old(Abs()), r, now)
    {
      if r.protocol != 1 && r.protocol != 2 {
        return Denied;
      }
      if r.SetPin? {
        if !r.complete || isPinSet == 1 {
          return Denied;
        }
        o := UpdatePinIfVerified(r.macOk, r.policyOk, false, false);
        return;
      }
      if remainingTries <= 0 || bootAttemptsLeft <= 0 || isPinSet != 1 || !r.complete {
        return Denied;
      }
      match r {
        case ChangePin(_, _, macOk, policyOk, matches) =>
          o := UpdatePinIfVerified(macOk, policyOk, true, matches);
        case GetPinToken(protocol, _, extras, matches) =>
          if extras {
            return Denied;
          }
          o := AddEncPinUvAuthToken(matches, protocol, PERM_DEFAULT, None, now);
        case GetPinTokenWithPermissions(protocol, _, permissions, rp, matches) =>
          if permissions == 0 {
            return Denied;
          }
          var p := permissions & PERM_DEFINED;
          if p & PERM_UNSUPPORTED != 0 {
            return Denied;
          }
          if p & (PERM_MC | PERM_GA) != 0 && rp == None {
            return Denied;
          }
          o := AddEncPinUvAuthToken(matches, protocol, p, rp, now);
      }
    }

    // ---------- The commands that tokens authorise ----------

    /** ctap_client_pin_verify_auth_ex. */
    method VerifyAuth(protocol: nat, macOk: bool, now: nat) returns (ok: bool)
      requires Valid() && clock == now < UINT32
      modifies t1, t2
      ensures Valid() && Abs() == old(Abs()).With(protocol, Observed(old(Abs()).Of(protocol), now))
      ensures ok == (Abs().Of(protocol).Active? && macOk)
    {
      Of(protocol).Observe(now);
      ok := Of(protocol).inUse && macOk;
    }

    /** The checks that makeCredential and getAssertion share: the param, then user verification,
        the permission and the relying party it is bound to. */
    method Authorise(protocol: nat, macOk: bool, permission: bv8, rpId: Rp, now: nat) returns (ok: bool)
      requires Valid() && clock == now < UINT32
      modifies t1, t2
      ensures Valid() && Abs() == old(Abs()).With(protocol, Observed(old(Abs()).Of(protocol), now))
      ensures var t := Abs().Of(protocol); ok == (t.Active? && macOk && t.verified && Covers(t, permission, rpId))
    {
      ok := VerifyAuth(protocol, macOk, now);
      if !ok {
        return;
      }
      var t := Of(protocol);
      if !t.verified || !Has(t.permissions, permission) {
        return false;
      }
      if t.rp != None && t.rp != Some(rpId) {
        return false;
      }
    }

    /** From the authenticator data on: the flags of the token are cleared unless the request
        asks for no user presence, and getAssertion saves the other credentials. */
    method Complete(r: Request, success: Outcome) returns (o: Outcome)
      requires Valid() && (r.MakeCredential? || r.GetAssertion?)
      modifies this`count, this`index, t1, t2
      ensures Valid() && (Abs(), o) == Completed(old(Abs()), r, success)
    {
      if !r.made {
        return Denied;
      }
      if r.up {
        SpendToken(r.protocol);
      }
      if !r.finished {
        return Denied;
      }
      var ok := true;
      if r.GetAssertion? {
        ok := SaveCredentialList(r.more);
      }
      o := if ok then success else Denied;
    }

    method SpendToken(protocol: nat)
      requires Valid()
      modifies t1, t2
      ensures Valid() && Abs() == old(Abs()).With(protocol, Spent(old(Abs()).Of(protocol)))
    {
      Of(protocol).Spend(clock);
    }

    /** save_credential_list. */
    method SaveCredentialList(more: nat) returns (ok: bool)
      modifies this`count, this`index
      ensures ok == (more < ALLOW_LIST_MAX_SIZE)
      ensures Abs() == if ok then Saved(old(Abs()), more) else old(Abs())
    {
      if more != 0 && more > ALLOW_LIST_MAX_SIZE - 1 {
        return false;
      }
      count, index := more, 0;
      ok := true;
    }

    /** The authorisation in ctap_make_credential, and its use of the token. */
    method MakeCredentialCommand(r: Request, now: nat) returns (o: Outcome)
      requires Valid() && clock == now < UINT32 && r.MakeCredential?
      requires remainingTries > 0 && bootAttemptsLeft > 0
      modifies this`count, this`index, t1, t2
      ensures Valid() && (Abs(), o) == Guarded(old(Abs()), r, now)
    {
      if r.param == Empty || !r.complete {
        return Denied;
      }
      if isPinSet == 1 {
        if r.param == Absent {
          return Denied;
        }
        var ok := Authorise(r.protocol, r.param.macOk, PERM_MC, r.rpId, now);
        if !ok {
          return Denied;
        }
      }
      if !r.up {
        return Denied;
      }
      o := Complete(r, if isPinSet == 1 then Authorised(r.protocol, Make) else Done);
    }

    /** The authorisation in ctap_get_assertion, and its use of the token. */
    method GetAssertionCommand(r: Request, now: nat) returns (o: Outcome)
      requires Valid() && clock == now < UINT32 && r.GetAssertion?
      requires remainingTries > 0 && bootAttemptsLeft > 0
      modifies this`count, this`index, t1, t2
      ensures Valid() && (Abs(), o) == Guarded(old(Abs()), r, now)
    {
      if r.param == Empty || !r.complete {
        return Denied;
      }
      var userVerified := false;
      if r.param.Given? {
        if r.protocol == 0 {
          return Denied;
        }
        var ok := Authorise(r.protocol, r.param.macOk, PERM_GA, r.rpId, now);
        if !ok {
          return Denied;
        }
        userVerified := true;
      }
      o := Complete(r, if userVerified then Authorised(r.protocol, if r.up then AssertUp else AssertSilent) else Done);
    }

    /** verify_pin_auth_for_credential_management. */
    method ManagementCommand(r: Request, now: nat) returns (o: Outcome)
      requires Valid() && clock == now < UINT32 && r.CredentialManagement?
      requires remainingTries > 0 && bootAttemptsLeft > 0
      modifies t1, t2
      ensures Valid() && (Abs(), o) == Guarded(old(Abs()), r, now)
    {
      if r.param == Empty {
        return Denied; // while parsing
      }
      if r.target == NextItem {
        return Done;
      }
      if !r.param.Given? || (r.protocol != 1 && r.protocol != 2) {
        return Denied;
      }
      var ok := VerifyAuth(r.protocol, r.param.macOk, now);
      var t := Of(r.protocol);
      if !ok || !Has(t.permissions, PERM_CM) {
        return Denied;
      }
      if r.target == AllRps {
        if t.rp != None {
          return Denied;
        }
      } else if !(t.rp == None || t.rp == Some(r.target.claimed)) {
        return Denied;
      }
      return Authorised(r.protocol, Manage);
    }

    // ---------- Everything ----------

    /** ctap_reset. */
    method Reset(userPresent: bool, now: nat) returns (o: Outcome)
      requires Valid() && clock == now
      modifies this`remainingTries, this`isPinSet, this`lastcmd, this`count, this`index, t1, t2
      ensures Valid() && (Abs(), o) == Answer(old(Abs()), FactoryReset(userPresent), now)
    {
      if now > AUTHENTICATOR_RESET_TIME_MS || !userPresent {
        return Denied;
      }
      // ctap_state_init
      remainingTries := PIN_LOCKOUT_ATTEMPTS;
      isPinSet := 0;
      // ctap_reset_state
      lastcmd, count, index := 0, 0, 0;
      // ctap_client_pin_initialize
      t1.Stop();
      t2.Stop();
      return WasReset;
    }

    /** ctap_get_next_assertion behind the check of lastcmd; index moves on even if it fails later. */
    method NextAssertionCommand(finished: bool) returns (o: Outcome)
      modifies this`index
      ensures (Abs(), o) == NextAssertion(old(Abs()), finished)
    {
      if lastcmd != CTAP_GET_ASSERTION {
        return Denied;
      }
      // get_next_credential
      if !(count > 0 && index < count) {
        return Denied;
      }
      index := index + 1;
      o := if finished then Done else Denied;
    }

    /** ctap_request and a power cycle. The command that came is kept, also when it was refused; a
        successful getNextAssertion is kept as a getAssertion, so that another one may follow. */
    method Handle(r: Request, now: nat) returns (o: Outcome)
      requires Valid() && now < UINT32 && (clock <= now || r.Reboot?)
      modifies this, t1, t2
      ensures Valid() && clock == now && (Abs(), o) == Step(old(Abs()), r, now)
    {
      if r.Reboot? {
        PowerUp(now);
        return Rebooted;
      }
      clock := now;
      o := Dispatch(r, now);
      Remember(if r.GetNextAssertion? && o == Done then CTAP_GET_ASSERTION else CommandByte(r));
    }

    method Remember(cmd: nat)
      requires Valid()
      modifies this`lastcmd
      ensures Valid() && Abs() == old(Abs()).(further := old(Abs()).further.(allowed := cmd == CTAP_GET_ASSERTION))
    {
      lastcmd := cmd;
    }

    /** What is in memory is lost. */
    method PowerUp(now: nat)
      requires Valid()
      modifies this, t1, t2
      ensures Valid() && clock == now && (Abs(), Rebooted) == Step(old(Abs()), Reboot, now)
    {
      t1.Stop();
      t2.Stop();
      bootAttemptsLeft := PIN_BOOT_ATTEMPTS;
      lastcmd, count, index := 0, 0, 0;
      clock := now;
    }

    /** The two switches of ctap_request: the lock checks before the guarded commands, and the commands. */
    method Dispatch(r: Request, now: nat) returns (o: Outcome)
      requires Valid() && clock == now < UINT32 && !r.Reboot?
      modifies this`remainingTries, this`bootAttemptsLeft, this`isPinSet, this`lastcmd, this`count, this`index, t1, t2
      ensures Valid() && (Abs(), o) == Answer(old(Abs()), r, now)
    {
      if r.GetInfo? || r.GetRetries? {
        o := Done;
      } else if r.GetNextAssertion? {
        o := NextAssertionCommand(r.finished);
      } else if r.Selection? {
        o := if r.userPresent then Done else Denied;
      } else if r.UnknownCommand? {
        o := Denied;
      } else if r.GetKeyAgreement? {
        o := if r.protocol != 1 && r.protocol != 2 then Denied else Done;
      } else if r.FactoryReset? {
        o := Reset(r.userPresent, now);
      } else if r.MakeCredential? || r.GetAssertion? || r.CredentialManagement? {
        o := HandleGuarded(r, now);
      } else {
        o := ClientPinCommand(r, now);
      }
    }

    method HandleGuarded(r: Request, now: nat) returns (o: Outcome)
      requires Valid() && clock == now < UINT32
      requires r.MakeCredential? || r.GetAssertion? || r.CredentialManagement?
      modifies this`count, this`index, t1, t2
      ensures Valid() && (Abs(), o) == Guarded(old(Abs()), r, now)
    {
      if remainingTries <= 0 {
        return Denied;
      }
      if bootAttemptsLeft <= 0 {
        return Denied;
      }
      if r.MakeCredential? {
        o := MakeCredentialCommand(r, now);
      } else if r.GetAssertion? {
        o := GetAssertionCommand(r, now);
      } else {
        o := ManagementCommand(r, now);
      }
    }
  }

  datatype Command = Command(time: nat, request: Request)

  /** The clock never goes back, except at a reboot. */
  predicate Timed(commands: seq<Command>) {
    forall i :: 0 <= i < |commands| ==>
      commands[i].time < UINT32 && (i > 0 && !commands[i].request.Reboot? ==> commands[i - 1].time <= commands[i].time)
  }

  /** Whatever commands a new device gets, what it does is a run, so all that is proved about runs
      holds of the code. */
  method Play(commands: seq<Command>) returns (run: Run)
    requires Timed(commands)
    ensures |run| == |commands| && IsRun(run)
    ensures forall i :: 0 <= i < |run| ==> run[i].time == commands[i].time && run[i].request == commands[i].request
  {
    var device := new Authenticator();
    run := [];
    for n := 0 to |commands|
      invariant fresh(device) && fresh(device.t1) && fresh(device.t2) && device.Valid()
      invariant |run| == n && device.Abs() == PinRuns.At(run, n) && IsRun(run)
      invariant device.clock == if n == 0 then 0 else commands[n - 1].time
      invariant forall i :: 0 <= i < n ==> run[i].time == commands[i].time && run[i].request == commands[i].request
    {
      var c := commands[n];
      var pre := device.Abs();
      var o := device.Handle(c.request, c.time);
      var e := Event(c.time, c.request, pre, device.Abs(), o);
      RunExtends(run, e);
      run := run + [e];
    }
  }
}
