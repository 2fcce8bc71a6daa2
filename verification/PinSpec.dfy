/** PIN retries and pinUvAuthTokens (section 6.5 of CTAP 2.1) as one state machine: what each
    command does to the counters and to the two tokens. Secrets do not appear; whether a MAC or a
    PIN hash matches is part of the request. */
module PinSpec {
  import opened Wrappers

  const PIN_LOCKOUT_ATTEMPTS: int := 8
  const PIN_BOOT_ATTEMPTS: int := 3
  const TOKEN_MAX_USAGE_PERIOD_MS: nat := 600_000
  const TOKEN_MAX_USER_PRESENT_MS: nat := 30_000
  const AUTHENTICATOR_RESET_TIME_MS: nat := 10_000
  const ALLOW_LIST_MAX_SIZE: nat := 20

  const PERM_MC: bv8 := 0x01
  const PERM_GA: bv8 := 0x02
  const PERM_CM: bv8 := 0x04
  const PERM_LBW: bv8 := 0x10
  const PERM_DEFAULT: bv8 := 0x03
  const PERM_DEFINED: bv8 := 0x3f
  const PERM_UNSUPPORTED: bv8 := 0x38

  /** A relying party, by the hash of its identifier. */
  type Rp = nat

  /** Active is a token with in_use set. */
  datatype Token =
    | Idle
    | Active(rp: Option<Rp>, permissions: bv8, start: nat, lastUsed: nat, verified: bool, present: bool)

  /** The further credentials that a getAssertion found: how many, how many of them have been taken, and
      whether getNextAssertion may come now. */
  datatype Further = Further(allowed: bool, count: nat, index: nat)

  const NoFurther: Further := Further(false, 0, 0)

  datatype State = State(pinSet: bool, tries: int, boot: int, p1: Token, p2: Token, further: Further)
  {
    /** get_pin_protocol_state. */
    function Of(protocol: nat): Token { if protocol == 1 then p1 else p2 }

    function With(protocol: nat, t: Token): State {
      if protocol == 1 then this.(p1 := t) else this.(p2 := t)
    }

    predicate Locked() { tries <= 0 }

    predicate BootLocked() { boot <= 0 }
  }

  /** pinUvAuthParam: absent, of length zero, or given with a MAC that does or does not match. */
  datatype AuthParam = Absent | Empty | Given(macOk: bool)

  /** What a credential management command is about. `claimed` is its rpIDHash parameter; a command
      that deletes or updates one credential names that credential, which belongs to `owner`, in
      another parameter. */
  datatype CmTarget =
    | NextItem
    | AllRps
    | Metadata(claimed: Rp)
    | CredentialsOf(claimed: Rp)
    | OneCredential(claimed: Rp, owner: Rp)

  /** `complete` says that the required parameters are there; `made` that everything up to the
      authenticator data succeeds, `finished` that the rest does. `more` is the number of credentials
      that a getAssertion found besides the one it uses. */
  datatype Request =
    | GetInfo
    | GetNextAssertion(finished: bool)
    | Selection(userPresent: bool)
    | UnknownCommand
    | GetRetries
    | GetKeyAgreement(protocol: nat)
    | SetPin(protocol: nat, complete: bool, macOk: bool, policyOk: bool)
    | ChangePin(protocol: nat, complete: bool, macOk: bool, policyOk: bool, matches: bool)
    | GetPinToken(protocol: nat, complete: bool, extras: bool, matches: bool)
    | GetPinTokenWithPermissions(protocol: nat, complete: bool, permissions: bv8, rp: Option<Rp>, matches: bool)
    | MakeCredential(protocol: nat, param: AuthParam, complete: bool, up: bool, rpId: Rp, made: bool, finished: bool)
    | GetAssertion(protocol: nat, param: AuthParam, complete: bool, up: bool, rpId: Rp, made: bool, finished: bool, more: nat)
    | CredentialManagement(protocol: nat, param: AuthParam, target: CmTarget)
    | FactoryReset(userPresent: bool)
    | Reboot

  datatype Use = Make | AssertUp | AssertSilent | Manage

  /** Denied is an error status; Done a success that no token authorised. WrongPin and RightPin
      report a comparison with the stored PIN, Issued is a RightPin that delivered a token. */
  datatype Outcome =
    | Denied | Done | WrongPin | RightPin | Issued(protocol: nat) | Authorised(protocol: nat, use: Use)
    | WasReset | Rebooted

  // ---------- Tokens ----------

  /** What is left of a token when it is checked at time now. */
  function Observed(t: Token, now: nat): Token {
    if t.Idle? || now - t.start > TOKEN_MAX_USAGE_PERIOD_MS || now - t.lastUsed > TOKEN_MAX_USER_PRESENT_MS then Idle
    else t.(lastUsed := now, present := t.present && now - t.start <= TOKEN_MAX_USER_PRESENT_MS)
  }

  /** A token that has been used up: nothing but large blob writes, which are never granted. */
  function Spent(t: Token): Token {
    if t.Idle? then Idle
    else t.(present := false, verified := false, permissions := t.permissions & PERM_LBW)
  }

  predicate Has(permissions: bv8, permission: bv8) { permissions & permission != 0 }

  predicate Covers(t: Token, permission: bv8, rp: Rp) {
    t.Active? && Has(t.permissions, permission) && (t.rp == None || t.rp == Some(rp))
  }

  // ---------- Commands ----------

  /** A failed comparison with the stored PIN. */
  function Missed(s: State): State {
    s.(boot := if s.boot > 0 then s.boot - 1 else s.boot, tries := if s.tries > 0 then s.tries - 1 else s.tries)
  }

  /** A successful one: the counters start again, unless the persistent one is full anyway. */
  function Matched(s: State): State {
    var s' := s.(p1 := Idle, p2 := Idle);
    if s.tries == PIN_LOCKOUT_ATTEMPTS then s'
    else s'.(tries := PIN_LOCKOUT_ATTEMPTS, boot := PIN_BOOT_ATTEMPTS)
  }

  function Issue(s: State, protocol: nat, permissions: bv8, rp: Option<Rp>, matches: bool, now: nat): (State, Outcome) {
    if !matches then (Missed(s), WrongPin)
    else (Matched(s).With(protocol, Active(rp, permissions, now, now, true, false)), Issued(protocol))
  }

  /** The commands that compare the PIN need a PIN, a known protocol and attempts left. */
  predicate MayTry(s: State, protocol: nat) {
    (protocol == 1 || protocol == 2) && !s.Locked() && !s.BootLocked() && s.pinSet
  }

  function Granted(r: Request): Option<bv8>
    requires r.GetPinTokenWithPermissions?
  {
    var p := r.permissions & PERM_DEFINED;
    if r.permissions == 0 || p & PERM_UNSUPPORTED != 0 || (p & PERM_DEFAULT != 0 && r.rp == None) then None else Some(p)
  }

  function ClientPin(s: State, r: Request, now: nat): (State, Outcome)
    requires r.SetPin? || r.ChangePin? || r.GetPinToken? || r.GetPinTokenWithPermissions?
  {
    match r
    case SetPin(protocol, complete, macOk, policyOk) =>
      if (protocol == 1 || protocol == 2) && complete && !s.pinSet && macOk && policyOk then (s.(pinSet := true), Done)
      else (s, Denied)
    case ChangePin(protocol, complete, macOk, policyOk, matches) =>
      if !(MayTry(s, protocol) && complete && macOk && policyOk) then (s, Denied)
      else if matches then (Matched(s), RightPin)
      else (Missed(s), WrongPin)
    case GetPinToken(protocol, complete, extras, matches) =>
      if !(MayTry(s, protocol) && complete && !extras) then (s, Denied)
      else Issue(s, protocol, PERM_DEFAULT, None, matches, now)
    case GetPinTokenWithPermissions(protocol, complete, _, rp, matches) =>
      if !(MayTry(s, protocol) && complete && Granted(r).Some?) then (s, Denied)
      else Issue(s, protocol, Granted(r).value, rp, matches, now)
  }

  /** The command gets as far as checking its pinUvAuthParam against a token. */
  predicate Checks(s: State, r: Request) {
    && !s.Locked() && !s.BootLocked()
    && match r
       case MakeCredential(_, param, complete, _, _, _, _) => s.pinSet && complete && param.Given?
       case GetAssertion(protocol, param, complete, _, _, _, _, _) => complete && param.Given? && protocol != 0
       case CredentialManagement(protocol, param, target) =>
         target != NextItem && param.Given? && (protocol == 1 || protocol == 2)
       case _ => false
  }

  /** The token, after that check, allows what is asked for. */
  predicate Allows(t: Token, r: Request)
    requires r.MakeCredential? || r.GetAssertion? || r.CredentialManagement?
  {
    t.Active? && r.param.Given? && r.param.macOk &&
    match r
    case MakeCredential(_, _, _, up, rpId, _, _) => t.verified && up && Covers(t, PERM_MC, rpId)
    case GetAssertion(_, _, _, _, rpId, _, _, _) => t.verified && Covers(t, PERM_GA, rpId)
    case CredentialManagement(_, _, target) =>
      Has(t.permissions, PERM_CM) &&
      match target
      case NextItem => true
      case AllRps => t.rp == None
      case _ => t.rp == None || t.rp == Some(target.claimed)
  }

  function UseOf(r: Request): Use
    requires r.MakeCredential? || r.GetAssertion? || r.CredentialManagement?
  {
    if r.MakeCredential? then Make else if r.CredentialManagement? then Manage else if r.up then AssertUp else AssertSilent
  }

  function Saved(s: State, more: nat): State { s.(further := s.further.(count := more, index := 0)) }

  /** The rest of makeCredential or getAssertion: once the authenticator data is made with user
      presence, the token of the protocol is used up, whatever happens then. A getAssertion that
      succeeds saves the further credentials. */
  function Completed(s: State, r: Request, success: Outcome): (State, Outcome)
    requires r.MakeCredential? || r.GetAssertion?
  {
    if !r.made then (s, Denied)
    else
      var s' := if r.up then s.With(r.protocol, Spent(s.Of(r.protocol))) else s;
      if !r.finished || (r.GetAssertion? && r.more >= ALLOW_LIST_MAX_SIZE) then (s', Denied)
      else (if r.GetAssertion? then Saved(s', r.more) else s', success)
  }

  /** The commands that a token can authorise. */
  function Guarded(s: State, r: Request, now: nat): (State, Outcome)
    requires r.MakeCredential? || r.GetAssertion? || r.CredentialManagement?
  {
    if Checks(s, r) then
      var t := Observed(s.Of(r.protocol), now);
      var s' := s.With(r.protocol, t);
      if !Allows(t, r) then (s', Denied)
      else if r.CredentialManagement? then (s', Authorised(r.protocol, Manage))
      else Completed(s', r, Authorised(r.protocol, UseOf(r)))
    else if !NeedsNoToken(s, r) then (s, Denied)
    else if r.CredentialManagement? then (s, Done)
    else Completed(s, r, Done)
  }

  /** makeCredential while no PIN is set, getAssertion without a pinUvAuthParam, and the
      continuation of an enumeration. */
  predicate NeedsNoToken(s: State, r: Request)
    requires r.MakeCredential? || r.GetAssertion? || r.CredentialManagement?
  {
    && !s.Locked() && !s.BootLocked()
    && match r
       case MakeCredential(_, param, complete, up, _, _, _) => !s.pinSet && complete && !param.Empty? && up
       case GetAssertion(_, param, complete, _, _, _, _, _) => complete && param.Absent?
       case CredentialManagement(_, param, target) => target.NextItem? && !param.Empty?
  }

  /** getNextAssertion takes the next of the further credentials, even if it fails after that. */
  function NextAssertion(s: State, finished: bool): (State, Outcome) {
    if !s.further.allowed || s.further.index >= s.further.count then (s, Denied)
    else (s.(further := s.further.(index := s.further.index + 1)), if finished then Done else Denied)
  }

  /** After these getNextAssertion is allowed: lastcmd is set by refused commands too. */
  predicate AllowsNext(r: Request, o: Outcome) { r.GetAssertion? || (r.GetNextAssertion? && o == Done) }

  function Step(s: State, r: Request, now: nat): (State, Outcome) {
    var (t, o) := Answer(s, r, now);
    (t.(further := t.further.(allowed := AllowsNext(r, o))), o)
  }

  /** A command without the record that it came. */
  function Answer(s: State, r: Request, now: nat): (State, Outcome) {
    match r
    case GetInfo => (s, Done)
    case GetNextAssertion(finished) => NextAssertion(s, finished)
    case Selection(userPresent) => (s, if userPresent then Done else Denied)
    case UnknownCommand => (s, Denied)
    case GetRetries => (s, Done)
    case GetKeyAgreement(protocol) => (s, if protocol == 1 || protocol == 2 then Done else Denied)
    case MakeCredential(_, _, _, _, _, _, _) => Guarded(s, r, now)
    case GetAssertion(_, _, _, _, _, _, _, _) => Guarded(s, r, now)
    case CredentialManagement(_, _, _) => Guarded(s, r, now)
    case FactoryReset(userPresent) =>
      if now <= AUTHENTICATOR_RESET_TIME_MS && userPresent
      then (State(false, PIN_LOCKOUT_ATTEMPTS, s.boot, Idle, Idle, NoFurther), WasReset) else (s, Denied)
    case Reboot => (s.(boot := PIN_BOOT_ATTEMPTS, p1 := Idle, p2 := Idle, further := NoFurther), Rebooted)
    case _ => ClientPin(s, r, now)
  }
}
