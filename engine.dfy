/** avp_ctx_t and the functions of avp/avp.c that update it in place. Each method is proved
    to do what the function of the same name in module Vault describes, and keeps the
    invariant `Vault.Inv`. */
module Engine {
  import opened AvpTypes
  import opened Vault
  import VaultProps
  import Hex
  import Parse
  import Format

  class Context {
    var session: Session
    /** The secret metadata table; always AVP_MAX_SECRETS entries. */
    const secrets: array<SecretMeta>
    var secretCount: u8

    /** The context as a value. */
    function Model(): State
      reads this, secrets
    {
      State(session, secrets[..], secretCount)
    }

    predicate Valid()
      reads this, secrets
    {
      secrets.Length == MAX_SECRETS && Inv(Model())
    }

    /** `avp_init`: the whole context zeroed. */
    constructor ()
      ensures Model() == InitialState && Valid()
      ensures fresh(secrets)
    {
      session := InitialSession;
      secrets := new SecretMeta[MAX_SECRETS](_ => FreeEntry);
      secretCount := 0;
      new;
      assert secrets[..] == InitialState.secrets;
      VaultProps.InitInv();
    }

    /** `find_secret_by_name`: the lowest in-use index with that name, or -1. */
    method FindSecretByName(name: string) returns (idx: int)
      requires secrets.Length == MAX_SECRETS
      ensures idx == Find(secrets[..], name)
    {
      var i := 0;
      while i < MAX_SECRETS
        invariant 0 <= i <= MAX_SECRETS
        invariant FindFrom(secrets[..], name, i) == Find(secrets[..], name)
      {
        if secrets[i].inUse && secrets[i].name == name {
          return i;
        }
        i := i + 1;
      }
      return -1;
    }

    /** `find_free_slot`: the lowest index not in use, or -1. */
    method FindFreeSlot() returns (idx: int)
      requires secrets.Length == MAX_SECRETS
      ensures idx == FreeSlot(secrets[..])
    {
      var i := 0;
      while i < MAX_SECRETS
        invariant 0 <= i <= MAX_SECRETS
        invariant FreeFrom(secrets[..], i) == FreeSlot(secrets[..])
      {
        if !secrets[i].inUse {
          return i;
        }
        i := i + 1;
      }
      return -1;
    }

    /** `avp_session_valid`, reading the clock only for an active session. */
    method SessionValid(now: u32) returns (valid: bool)
      modifies this
      ensures Checked(valid, session) == Vault.SessionValid(old(session), now)
      ensures secretCount == old(secretCount)
    {
      if !session.active {
        return false;
      }
      var expiresAt := (session.createdAt + session.ttl) % U32_MODULUS;
      if now >= expiresAt {
        session := session.(active := false);
        return false;
      }
      return true;
    }

    /** `avp_session_invalidate`. */
    method SessionInvalidate()
      requires Valid()
      modifies this
      ensures session == Vault.SessionInvalidate(old(session))
      ensures secretCount == old(secretCount)
      ensures Valid()
    {
      session := session.(active := false, sessionId := "");
    }

    method Discover() returns (resp: Response)
      ensures resp == Vault.Discover(Model()).resp
    {
      resp := EmptyResponse.(ok := true);
      resp := resp.(discover := DiscoverInfo(
        VERSION, BACKEND_TYPE, MANUFACTURER, MODEL, SERIAL, true, true, MAX_SECRETS, MAX_SECRET_SIZE));
    }

    /** `avp_op_authenticate` with 16 random bytes and one clock reading. */
    method Authenticate(cmd: Command, random: seq<u8>, now: u32) returns (resp: Response)
      requires Valid() && cmd.Valid() && |random| == 16
      modifies this
      ensures Model() == Vault.Authenticate(old(Model()), cmd, random, now).st
      ensures resp == Vault.Authenticate(old(Model()), cmd, random, now).resp
      ensures Valid()
    {
      VaultProps.AuthenticatePreservesInv(Model(), cmd, random, now);
      if session.pinAttempts as nat >= MAX_PIN_ATTEMPTS {
        return ErrorResponse(ErrPinLocked);
      }
      if |cmd.pin| < MIN_PIN_LEN {
        session := session.(pinAttempts := session.pinAttempts + 1);
        return ErrorResponse(ErrPinInvalid);
      }
      session := session.(pinAttempts := 0);
      session := session.(active := true);
      var id := Hex.HexEncode(random);
      session := session.(sessionId := id);
      session := session.(workspace := if cmd.workspace != "" then cmd.workspace else DEFAULT_WORKSPACE);
      session := session.(createdAt := now);
      session := session.(ttl := if cmd.ttl > 0 then cmd.ttl else DEFAULT_TTL);
      resp := EmptyResponse.(ok := true, auth := AuthInfo(session.sessionId, session.ttl, session.workspace));
    }

    /** `avp_op_store` (and `avp_op_rotate`): `clock` holds the readings in the order the
        handler asks for them. */
    method Store(cmd: Command, clock: seq<u32>) returns (resp: Response)
      requires Valid() && cmd.Valid() && |clock| >= 3
      modifies this, secrets
      ensures Model() == Vault.Store(old(Model()), cmd, clock).st
      ensures resp == Vault.Store(old(Model()), cmd, clock).resp
      ensures Valid()
    {
      VaultProps.StorePreservesInv(Model(), cmd, clock);
      var valid := SessionValid(clock[0]);
      if !valid {
        return ErrorResponse(ErrNotAuthenticated);
      }
      var reading := 1;
      var idx := FindSecretByName(cmd.name);
      if idx < 0 {
        idx := FindFreeSlot();
        if idx < 0 {
          return ErrorResponse(ErrCapacity);
        }
        secrets[idx] := secrets[idx].(name := cmd.name, slotIndex := (SLOT_SECRETS_START + idx) % 256);
        secrets[idx] := secrets[idx].(createdAt := clock[reading], inUse := true);
        reading := reading + 1;
        secretCount := (secretCount + 1) % 256;
      }
      secrets[idx] := secrets[idx].(updatedAt := clock[reading]);
      resp := OkResponse;
    }

    /** `avp_op_retrieve`. */
    method Retrieve(cmd: Command, now: u32) returns (resp: Response)
      requires Valid()
      modifies this
      ensures Model() == Vault.Retrieve(old(Model()), cmd, now).st
      ensures resp == Vault.Retrieve(old(Model()), cmd, now).resp
      ensures Valid()
    {
      var valid := SessionValid(now);
      if !valid {
        return ErrorResponse(ErrNotAuthenticated);
      }
      var idx := FindSecretByName(cmd.name);
      if idx < 0 {
        return ErrorResponse(ErrSecretNotFound);
      }
      resp := EmptyResponse.(ok := true, retrieveValue := "[stored_value]");
    }

    /** `avp_op_delete`: the entry is zeroed in place. */
    method Delete(cmd: Command, now: u32) returns (resp: Response)
      requires Valid()
      modifies this, secrets
      ensures Model() == Vault.Delete(old(Model()), cmd, now).st
      ensures resp == Vault.Delete(old(Model()), cmd, now).resp
      ensures Valid()
    {
      VaultProps.DeletePreservesInv(Model(), cmd, now);
      var valid := SessionValid(now);
      if !valid {
        return ErrorResponse(ErrNotAuthenticated);
      }
      var idx := FindSecretByName(cmd.name);
      if idx < 0 {
        return ErrorResponse(ErrSecretNotFound);
      }
      secrets[idx] := FreeEntry;
      secretCount := (secretCount - 1) % 256;
      resp := OkResponse;
    }

    /** The LIST loop: the names of the entries in use, by ascending index, at most 32. */
    method ListSecrets() returns (names: seq<string>)
      requires secrets.Length == MAX_SECRETS
      ensures names == ListNames(secrets[..])
    {
      names := [];
      var i := 0;
      while i < MAX_SECRETS && |names| < MAX_SECRETS
        invariant 0 <= i <= MAX_SECRETS && |names| <= i
        invariant names == ListNames(secrets[..i])
      {
        assert secrets[..i + 1][..i] == secrets[..i];
        if secrets[i].inUse {
          names := names + [secrets[i].name];
        }
        i := i + 1;
      }
      assert secrets[..i] == secrets[..];
    }

    /** `avp_op_list`. */
    method List(now: u32) returns (resp: Response)
      requires Valid()
      modifies this
      ensures Model() == Vault.List(old(Model()), now).st
      ensures resp == Vault.List(old(Model()), now).resp
      ensures Valid()
    {
      var valid := SessionValid(now);
      if !valid {
        return ErrorResponse(ErrNotAuthenticated);
      }
      var names := ListSecrets();
      resp := EmptyResponse.(ok := true, listNames := names);
    }

    method HwChallenge() returns (resp: Response)
      ensures resp == Vault.HwChallenge(Model()).resp
    {
      resp := EmptyResponse.(ok := true);
      resp := resp.(challenge := resp.challenge.(verified := true, model := SE_MODEL, serial := SERIAL));
    }

    /** `avp_op_hw_sign`: 64 random bytes, hex-encoded, as the placeholder signature. */
    method HwSign(random: seq<u8>, now: u32) returns (resp: Response)
      requires Valid() && |random| == 64
      modifies this
      ensures Model() == Vault.HwSign(old(Model()), random, now).st
      ensures resp == Vault.HwSign(old(Model()), random, now).resp
      ensures Valid()
    {
      var valid := SessionValid(now);
      if !valid {
        return ErrorResponse(ErrNotAuthenticated);
      }
      var signature := Hex.HexEncode(random);
      resp := EmptyResponse.(ok := true, signature := signature);
    }

    method HwAttest(now: u32) returns (resp: Response)
      requires Valid()
      modifies this
      ensures Model() == Vault.HwAttest(old(Model()), now).st
      ensures resp == Vault.HwAttest(old(Model()), now).resp
      ensures Valid()
    {
      var valid := SessionValid(now);
      if !valid {
        return ErrorResponse(ErrNotAuthenticated);
      }
      resp := EmptyResponse.(ok := true, attestation := ATTESTATION);
    }

    /** `avp_process`: parse, dispatch, format into `outLen` bytes. */
    method Process(json: string, outLen: nat, clock: seq<u32>, entropy: seq<u8>) returns (ret: Ret, out: string)
      requires Valid() && |clock| >= 3 && |entropy| >= 64
      modifies this, secrets
      ensures Processed(Model(), ret, out) == Vault.Process(old(Model()), json, outLen, clock, entropy)
      ensures Valid()
    {
      ghost var st := Model();
      var resp: Response;
      match Parse.ParseCmd(json) {
        case ParseFailed(code) =>
          resp := ErrorResponse(code);
        case Parsed(cmd) =>
          match cmd.op {
            case OpDiscover => resp := Discover();
            case OpAuthenticate => resp := Authenticate(cmd, entropy[..16], clock[0]);
            case OpStore => resp := Store(cmd, clock);
            case OpRetrieve => resp := Retrieve(cmd, clock[0]);
            case OpDelete => resp := Delete(cmd, clock[0]);
            case OpList => resp := List(clock[0]);
            case OpRotate => resp := Store(cmd, clock);
            case OpHwChallenge => resp := HwChallenge();
            case OpHwSign => resp := HwSign(entropy[..64], clock[0]);
            case OpHwAttest => resp := HwAttest(clock[0]);
            case OpUnknown => resp := ErrorResponse(ErrInvalidOp);
          }
      }
      assert resp == Reply(st, json, clock, entropy);
      ret, out := Format.FormatRespBuffer(resp, outLen);
    }
  }
}
