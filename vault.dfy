/** The AVP engine of avp/avp.c as a function of its state: the secret metadata table with
    its counter, the session with its PIN lockout, the ten verb handlers and `avp_process`.
    The clock and the random generator are inputs: `clock` lists the readings `get_time`
    returns, in the order the code asks for them, and `entropy` the bytes `random_bytes`
    hands out. */
module Vault {
  import opened AvpTypes
  import Hex
  import Parse
  import Format

  /** avp_ctx_t without its callbacks and device handle. */
  datatype State = State(session: Session, secrets: seq<SecretMeta>, secretCount: u8)

  /** The context as `avp_init` leaves it: everything zero. */
  const InitialState: State := State(InitialSession, seq(MAX_SECRETS, _ => FreeEntry), 0)

  /** A handler's effect: the new state and the response record it filled in. */
  datatype Outcome = Outcome(st: State, resp: Response)

  /** A successful response that carries no payload. */
  const OkResponse: Response := EmptyResponse.(ok := true)

  // ---------------------------------------------------------------------------------------
  // The secret metadata table

  /** An entry `find_secret_by_name` accepts for `name`. */
  predicate Holds(e: SecretMeta, name: string) {
    e.inUse && e.name == name
  }

  /** The lowest index at or after `i` whose entry holds `name`, or -1. */
  function FindFrom(secrets: seq<SecretMeta>, name: string, i: nat): (r: int)
    requires i <= |secrets|
    ensures r == -1 || i <= r < |secrets|
    ensures r >= 0 ==> Holds(secrets[r], name)
    ensures r >= 0 ==> forall j :: i <= j < r ==> !Holds(secrets[j], name)
    ensures r == -1 ==> forall j :: i <= j < |secrets| ==> !Holds(secrets[j], name)
    decreases |secrets| - i
  {
    if i == |secrets| then -1
    else if Holds(secrets[i], name) then i
    else FindFrom(secrets, name, i + 1)
  }

  /** `find_secret_by_name`: the lowest in-use index named `name`, or -1 when there is none. */
  function Find(secrets: seq<SecretMeta>, name: string): (r: int)
    ensures -1 <= r < |secrets|
    ensures r >= 0 ==> Holds(secrets[r], name) && forall j :: 0 <= j < r ==> !Holds(secrets[j], name)
    ensures r == -1 <==> forall j :: 0 <= j < |secrets| ==> !Holds(secrets[j], name)
  {
    FindFrom(secrets, name, 0)
  }

  /** The lowest free index at or after `i`, or -1. */
  function FreeFrom(secrets: seq<SecretMeta>, i: nat): (r: int)
    requires i <= |secrets|
    ensures r == -1 || i <= r < |secrets|
    ensures r >= 0 ==> !secrets[r].inUse && forall j :: i <= j < r ==> secrets[j].inUse
    ensures r == -1 ==> forall j :: i <= j < |secrets| ==> secrets[j].inUse
    decreases |secrets| - i
  {
    if i == |secrets| then -1
    else if !secrets[i].inUse then i
    else FreeFrom(secrets, i + 1)
  }

  /** `find_free_slot`: the lowest index not in use, or -1 when the table is full. */
  function FreeSlot(secrets: seq<SecretMeta>): (r: int)
    ensures -1 <= r < |secrets|
    ensures r >= 0 ==> !secrets[r].inUse && forall j :: 0 <= j < r ==> secrets[j].inUse
    ensures r == -1 <==> forall j :: 0 <= j < |secrets| ==> secrets[j].inUse
  {
    FreeFrom(secrets, 0)
  }

  /** The number of entries in use. */
  function CountInUse(secrets: seq<SecretMeta>): nat {
    if |secrets| == 0 then 0
    else CountInUse(secrets[..|secrets| - 1]) + (if secrets[|secrets| - 1].inUse then 1 else 0)
  }

  /** The names the LIST loop copies out: those of the entries in use, by ascending index. */
  function ListNames(secrets: seq<SecretMeta>): seq<string> {
    if |secrets| == 0 then []
    else
      var last := secrets[|secrets| - 1];
      ListNames(secrets[..|secrets| - 1]) + (if last.inUse then [last.name] else [])
  }

  /** The indices of the entries in use, ascending: an independent account of what LIST
      enumerates. */
  function InUseIndices(secrets: seq<SecretMeta>): seq<nat> {
    if |secrets| == 0 then []
    else InUseIndices(secrets[..|secrets| - 1]) + (if secrets[|secrets| - 1].inUse then [|secrets| - 1] else [])
  }

  // ---------------------------------------------------------------------------------------
  // The invariant the handlers keep

  /** An entry in use sits in data slot 96 + its index and has a name that fits its buffer;
      an entry not in use is all zero. */
  predicate EntryWellFormed(e: SecretMeta, i: nat) {
    if e.inUse then e.slotIndex == SLOT_SECRETS_START + i && |e.name| < MAX_NAME_LEN
    else e == FreeEntry
  }

  predicate TableWellFormed(secrets: seq<SecretMeta>) {
    && |secrets| == MAX_SECRETS
    && forall i :: 0 <= i < |secrets| ==> EntryWellFormed(secrets[i], i)
  }

  /** No two entries in use carry the same name. */
  predicate UniqueNames(secrets: seq<SecretMeta>) {
    forall i, j :: 0 <= i < j < |secrets| && secrets[i].inUse && secrets[j].inUse ==> secrets[i].name != secrets[j].name
  }

  /** The session's strings fit their buffers, and the PIN counter never passes the limit. */
  predicate SessionWellFormed(session: Session) {
    && session.pinAttempts <= MAX_PIN_ATTEMPTS
    && (|session.sessionId| == 0 || |session.sessionId| == SESSION_ID_LEN)
    && |session.workspace| < MAX_NAME_LEN
  }

  predicate Inv(st: State) {
    && TableWellFormed(st.secrets)
    && UniqueNames(st.secrets)
    && st.secretCount as nat == CountInUse(st.secrets)
    && SessionWellFormed(st.session)
  }

  // ---------------------------------------------------------------------------------------
  // The session

  datatype Checked = Checked(valid: bool, session: Session)

  /** `avp_session_valid` at time `now`: a session is valid while it is active and `now` is
      before `created_at + ttl` computed in 32 bits; an expired session is switched off. */
  function SessionValid(session: Session, now: u32): (r: Checked)
    ensures r.valid <==> session.active && now < (session.createdAt + session.ttl) % U32_MODULUS
    ensures r.session == session.(active := r.valid)
  {
    if !session.active then Checked(false, session)
    else if now >= (session.createdAt + session.ttl) % U32_MODULUS then Checked(false, session.(active := false))
    else Checked(true, session)
  }

  /** `avp_session_invalidate`: the session is switched off and its id cleared. */
  function SessionInvalidate(session: Session): (s: Session)
    ensures !s.active && s.sessionId == ""
    ensures s.workspace == session.workspace && s.pinAttempts == session.pinAttempts
    ensures s.createdAt == session.createdAt && s.ttl == session.ttl
  {
    session.(active := false, sessionId := "")
  }

  // ---------------------------------------------------------------------------------------
  // The handlers

  /** The common NOT_AUTHENTICATED exit of the gated handlers. */
  function Denied(st: State, session: Session): (r: Outcome)
    ensures r.st.secrets == st.secrets && r.st.secretCount == st.secretCount && r.st.session == session
    ensures !r.resp.ok && r.resp.errorCode == ErrNotAuthenticated
  {
    Outcome(st.(session := session), ErrorResponse(ErrNotAuthenticated))
  }

  /** DISCOVER: the fixed capabilities, without touching the context. */
  function Discover(st: State): (r: Outcome)
    ensures r.st == st && r.resp.ok && r.resp.discover.version != ""
  {
    Outcome(st, EmptyResponse.(ok := true, discover := DiscoverInfo(
      VERSION, BACKEND_TYPE, MANUFACTURER, MODEL, SERIAL, true, true, MAX_SECRETS, MAX_SECRET_SIZE)))
  }

  /** AUTHENTICATE with the 16 random bytes of the new session id and the time it is created. */
  function Authenticate(st: State, cmd: Command, random: seq<u8>, now: u32): (r: Outcome)
    requires |random| == 16
    ensures r.st.secrets == st.secrets && r.st.secretCount == st.secretCount
    ensures r.resp.ok <==> st.session.pinAttempts as nat < MAX_PIN_ATTEMPTS && |cmd.pin| >= MIN_PIN_LEN
    ensures r.resp.ok ==> r.st.session.active && r.st.session.pinAttempts == 0
    ensures r.resp.ok ==> |r.resp.auth.sessionId| == 2 * |random| && r.resp.auth.sessionId == r.st.session.sessionId
  {
    var s := st.session;
    if s.pinAttempts as nat >= MAX_PIN_ATTEMPTS then
      Outcome(st, ErrorResponse(ErrPinLocked))
    else if |cmd.pin| < MIN_PIN_LEN then
      Outcome(st.(session := s.(pinAttempts := s.pinAttempts + 1)), ErrorResponse(ErrPinInvalid))
    else
      var workspace := if cmd.workspace != "" then cmd.workspace else DEFAULT_WORKSPACE;
      var ttl: u32 := if cmd.ttl > 0 then cmd.ttl else DEFAULT_TTL;
      var session := Session(true, Hex.Encode(random), workspace, now, ttl, 0);
      Outcome(st.(session := session),
              EmptyResponse.(ok := true, auth := AuthInfo(session.sessionId, ttl, workspace)))
  }

  /** STORE, and ROTATE which is the same handler. `clock[0]` is read by the session check,
      `clock[1]` and `clock[2]` stamp a new entry, `clock[1]` alone refreshes an existing one. */
  function Store(st: State, cmd: Command, clock: seq<u32>): (r: Outcome)
    requires |clock| >= 3
    ensures r.st.session == SessionValid(st.session, clock[0]).session
    ensures r.resp.ok ==> SessionValid(st.session, clock[0]).valid && Find(r.st.secrets, cmd.name) >= 0
    ensures !r.resp.ok ==> r.st.secrets == st.secrets && r.st.secretCount == st.secretCount
  {
    var check := SessionValid(st.session, clock[0]);
    if !check.valid then Denied(st, check.session)
    else
      var st1 := st.(session := check.session);
      var idx := Find(st.secrets, cmd.name);
      if idx >= 0 then
        var secrets := st.secrets[idx := st.secrets[idx].(updatedAt := clock[1])];
        assert Holds(secrets[idx], cmd.name);
        Outcome(st1.(secrets := secrets), OkResponse)
      else
        var free := FreeSlot(st.secrets);
        if free < 0 then Outcome(st1, ErrorResponse(ErrCapacity))
        else
          var entry := SecretMeta(cmd.name, (SLOT_SECRETS_START + free) % 256, clock[1], clock[2], true);
          assert Holds(st.secrets[free := entry][free], cmd.name);
          Outcome(st1.(secrets := st.secrets[free := entry], secretCount := (st.secretCount + 1) % 256),
                  OkResponse)
  }

  /** RETRIEVE: the placeholder value for a stored name. */
  function Retrieve(st: State, cmd: Command, now: u32): (r: Outcome)
    ensures r.st.secrets == st.secrets && r.st.secretCount == st.secretCount
    ensures r.st.session == SessionValid(st.session, now).session
    ensures r.resp.ok <==> SessionValid(st.session, now).valid && Find(st.secrets, cmd.name) >= 0
  {
    var check := SessionValid(st.session, now);
    if !check.valid then Denied(st, check.session)
    else
      var st1 := st.(session := check.session);
      if Find(st.secrets, cmd.name) < 0 then Outcome(st1, ErrorResponse(ErrSecretNotFound))
      else Outcome(st1, EmptyResponse.(ok := true, retrieveValue := "[stored_value]"))
  }

  /** DELETE: the entry is zeroed and the counter decremented in 8 bits. */
  function Delete(st: State, cmd: Command, now: u32): (r: Outcome)
    ensures r.st.session == SessionValid(st.session, now).session
    ensures r.resp.ok <==> SessionValid(st.session, now).valid && Find(st.secrets, cmd.name) >= 0
    ensures !r.resp.ok ==> r.st.secrets == st.secrets && r.st.secretCount == st.secretCount
    ensures r.resp.ok ==> |r.st.secrets| == |st.secrets| && r.st.secrets[Find(st.secrets, cmd.name)] == FreeEntry
  {
    var check := SessionValid(st.session, now);
    if !check.valid then Denied(st, check.session)
    else
      var st1 := st.(session := check.session);
      var idx := Find(st.secrets, cmd.name);
      if idx < 0 then Outcome(st1, ErrorResponse(ErrSecretNotFound))
      else Outcome(st1.(secrets := st.secrets[idx := FreeEntry], secretCount := (st.secretCount - 1) % 256),
                   OkResponse)
  }

  /** LIST: the names in use, by ascending index. */
  function List(st: State, now: u32): (r: Outcome)
    ensures r.st.secrets == st.secrets && r.st.secretCount == st.secretCount
    ensures r.st.session == SessionValid(st.session, now).session
    ensures r.resp.ok <==> SessionValid(st.session, now).valid
  {
    var check := SessionValid(st.session, now);
    if !check.valid then Denied(st, check.session)
    else Outcome(st.(session := check.session), EmptyResponse.(ok := true, listNames := ListNames(st.secrets)))
  }

  /** HW_CHALLENGE: verified, with the secure element's model and serial, but no challenge
      text; the context is neither checked nor changed. */
  function HwChallenge(st: State): (r: Outcome)
    ensures r.st == st && r.resp.ok && r.resp.challenge.verified
  {
    Outcome(st, EmptyResponse.(ok := true, challenge := ChallengeInfo("", "", true, SE_MODEL, SERIAL)))
  }

  /** HW_SIGN: the placeholder signature is 64 random bytes in hex. */
  function HwSign(st: State, random: seq<u8>, now: u32): (r: Outcome)
    requires |random| == 64
    ensures r.st.secrets == st.secrets && r.st.secretCount == st.secretCount
    ensures r.st.session == SessionValid(st.session, now).session
    ensures r.resp.ok <==> SessionValid(st.session, now).valid
    ensures r.resp.ok ==> |r.resp.signature| == 128
  {
    var check := SessionValid(st.session, now);
    if !check.valid then Denied(st, check.session)
    else Outcome(st.(session := check.session), EmptyResponse.(ok := true, signature := Hex.Encode(random)))
  }

  /** HW_ATTEST: the placeholder attestation document. */
  function HwAttest(st: State, now: u32): (r: Outcome)
    ensures r.st.secrets == st.secrets && r.st.secretCount == st.secretCount
    ensures r.st.session == SessionValid(st.session, now).session
    ensures r.resp.ok <==> SessionValid(st.session, now).valid
  {
    var check := SessionValid(st.session, now);
    if !check.valid then Denied(st, check.session)
    else Outcome(st.(session := check.session), EmptyResponse.(ok := true, attestation := ATTESTATION))
  }

  /** The switch of `avp_process`. */
  function Dispatch(st: State, cmd: Command, clock: seq<u32>, entropy: seq<u8>): (r: Outcome)
    requires |clock| >= 3 && |entropy| >= 64
    ensures cmd.op != OpAuthenticate ==> r.st.session.pinAttempts == st.session.pinAttempts
    ensures cmd.op !in {OpStore, OpRotate, OpDelete} ==> r.st.secrets == st.secrets && r.st.secretCount == st.secretCount
    ensures !r.resp.ok ==> r.resp.errorMsg == ""
  {
    match cmd.op
    case OpDiscover => Discover(st)
    case OpAuthenticate => Authenticate(st, cmd, entropy[..16], clock[0])
    case OpStore => Store(st, cmd, clock)
    case OpRetrieve => Retrieve(st, cmd, clock[0])
    case OpDelete => Delete(st, cmd, clock[0])
    case OpList => List(st, clock[0])
    case OpRotate => Store(st, cmd, clock)
    case OpHwChallenge => HwChallenge(st)
    case OpHwSign => HwSign(st, entropy[..64], clock[0])
    case OpHwAttest => HwAttest(st, clock[0])
    case OpUnknown => Outcome(st, ErrorResponse(ErrInvalidOp))
  }

  datatype Processed = Processed(st: State, ret: Ret, out: string)

  /** `avp_process`: parse, dispatch, format into `outLen` bytes; the result is the
      formatter's. */
  function Process(st: State, json: string, outLen: nat, clock: seq<u32>, entropy: seq<u8>): (p: Processed)
    requires |clock| >= 3 && |entropy| >= 64
    ensures p.ret == AvpOk <==> |Format.ResponseText(Reply(st, json, clock, entropy))| < outLen
    ensures p.out == Format.FormatResp(Reply(st, json, clock, entropy), outLen).out
  {
    var reply := Reply(st, json, clock, entropy);
    var f := Format.FormatResp(reply, outLen);
    match Parse.ParseCmd(json)
    case ParseFailed(_) => Processed(st, f.ret, f.out)
    case Parsed(cmd) => Processed(Dispatch(st, cmd, clock, entropy).st, f.ret, f.out)
  }

  /** The response record `avp_process` hands to the formatter. */
  function Reply(st: State, json: string, clock: seq<u32>, entropy: seq<u8>): (r: Response)
    requires |clock| >= 3 && |entropy| >= 64
    ensures r.ok ==> Parse.ParseCmd(json).Parsed?
    ensures !r.ok ==> r.errorMsg == ""
  {
    match Parse.ParseCmd(json)
    case ParseFailed(code) => ErrorResponse(code)
    case Parsed(cmd) => Dispatch(st, cmd, clock, entropy).resp
  }
}
