/** What the AVP engine promises about its secret table, its session and its replies, proved
    about the functions of module Vault. */
module VaultProps {
  import opened AvpTypes
  import opened Vault
  import Hex
  import Parse
  import Format

  // ---------------------------------------------------------------------------------------
  // Counting and enumerating the table

  function InUse(e: SecretMeta): nat {
    if e.inUse then 1 else 0
  }

  /** The counter never exceeds the table, and it equals the table size exactly when every
      entry is in use. */
  lemma {:induction false} CountBound(secrets: seq<SecretMeta>)
    ensures CountInUse(secrets) <= |secrets|
    ensures CountInUse(secrets) == |secrets| <==> forall i :: 0 <= i < |secrets| ==> secrets[i].inUse
  {
    if |secrets| > 0 {
      var init := secrets[..|secrets| - 1];
      CountBound(init);
      if CountInUse(secrets) == |secrets| {
        forall i | 0 <= i < |secrets|
          ensures secrets[i].inUse
        {
          if i < |secrets| - 1 {
            assert init[i] == secrets[i];
          }
        }
      }
      if forall i :: 0 <= i < |secrets| ==> secrets[i].inUse {
        assert forall i :: 0 <= i < |init| ==> init[i].inUse by {
          forall i | 0 <= i < |init|
            ensures init[i].inUse
          {
            assert init[i] == secrets[i];
          }
        }
      }
    }
  }

  /** Replacing one entry changes the count by what the old and new entries contribute. */
  lemma {:induction false} CountUpdate(secrets: seq<SecretMeta>, i: nat, e: SecretMeta)
    requires i < |secrets|
    ensures CountInUse(secrets[i := e]) == CountInUse(secrets) - InUse(secrets[i]) + InUse(e)
  {
    var n := |secrets|;
    var updated := secrets[i := e];
    if i < n - 1 {
      CountUpdate(secrets[..n - 1], i, e);
      assert updated[..n - 1] == secrets[..n - 1][i := e];
    } else {
      assert updated[..n - 1] == secrets[..n - 1];
    }
  }

  /** Under the invariant a free entry exists exactly when fewer than 32 are in use. */
  lemma FreeSlotIffRoom(st: State)
    requires Inv(st)
    ensures FreeSlot(st.secrets) >= 0 <==> st.secretCount as nat < MAX_SECRETS
  {
    CountBound(st.secrets);
  }

  /** LIST and the in-use indices agree: one name per index, in the same order. */
  lemma {:induction false} ListNamesByIndex(secrets: seq<SecretMeta>)
    ensures |ListNames(secrets)| == |InUseIndices(secrets)| == CountInUse(secrets)
    ensures forall k :: 0 <= k < |InUseIndices(secrets)| ==>
      InUseIndices(secrets)[k] < |secrets| && ListNames(secrets)[k] == secrets[InUseIndices(secrets)[k]].name
  {
    if |secrets| > 0 {
      var init := secrets[..|secrets| - 1];
      ListNamesByIndex(init);
      forall k | 0 <= k < |InUseIndices(secrets)|
        ensures InUseIndices(secrets)[k] < |secrets|
        ensures ListNames(secrets)[k] == secrets[InUseIndices(secrets)[k]].name
      {
        if k < |InUseIndices(init)| {
          assert InUseIndices(secrets)[k] == InUseIndices(init)[k];
          assert ListNames(secrets)[k] == ListNames(init)[k];
          assert init[InUseIndices(init)[k]] == secrets[InUseIndices(init)[k]];
        }
      }
    }
  }

  /** The in-use indices ascend strictly, and they are exactly the entries in use. */
  lemma {:induction false} InUseIndicesExact(secrets: seq<SecretMeta>)
    ensures forall k, l :: 0 <= k < l < |InUseIndices(secrets)| ==> InUseIndices(secrets)[k] < InUseIndices(secrets)[l]
    ensures forall i :: 0 <= i < |secrets| ==> (secrets[i].inUse <==> i in InUseIndices(secrets))
    ensures forall k :: 0 <= k < |InUseIndices(secrets)| ==> InUseIndices(secrets)[k] < |secrets|
  {
    if |secrets| > 0 {
      var init := secrets[..|secrets| - 1];
      InUseIndicesExact(init);
      forall i | 0 <= i < |secrets| - 1
        ensures secrets[i].inUse <==> i in InUseIndices(secrets)
      {
        assert init[i] == secrets[i];
      }
    }
  }

  /** A name is listed exactly when `find_secret_by_name` finds it. */
  lemma ListMembership(secrets: seq<SecretMeta>, name: string)
    ensures name in ListNames(secrets) <==> Find(secrets, name) >= 0
  {
    ListNamesByIndex(secrets);
    InUseIndicesExact(secrets);
    var idx := InUseIndices(secrets);
    if name in ListNames(secrets) {
      var k :| 0 <= k < |ListNames(secrets)| && ListNames(secrets)[k] == name;
      assert Holds(secrets[idx[k]], name);
    }
    if Find(secrets, name) >= 0 {
      var i := Find(secrets, name);
      var k :| 0 <= k < |idx| && idx[k] == i;
      assert ListNames(secrets)[k] == name;
    }
  }

  /** Under the invariant every entry in use sits in a data slot of [96, 127], and no two
      share a slot. */
  lemma SlotsDistinctInRange(st: State)
    requires Inv(st)
    ensures forall i :: 0 <= i < |st.secrets| && st.secrets[i].inUse ==>
      SLOT_SECRETS_START <= st.secrets[i].slotIndex as nat <= SLOT_SECRETS_END
    ensures forall i, j :: 0 <= i < j < |st.secrets| && st.secrets[i].inUse && st.secrets[j].inUse ==>
      st.secrets[i].slotIndex < st.secrets[j].slotIndex
  {
    forall i | 0 <= i < |st.secrets| && st.secrets[i].inUse
      ensures st.secrets[i].slotIndex as nat == SLOT_SECRETS_START + i
    {
      assert EntryWellFormed(st.secrets[i], i);
    }
  }

  // ---------------------------------------------------------------------------------------
  // The invariant

  lemma InitInv()
    ensures Inv(InitialState)
  {
    CountZero(InitialState.secrets);
  }

  lemma {:induction false} CountZero(secrets: seq<SecretMeta>)
    requires forall i :: 0 <= i < |secrets| ==> !secrets[i].inUse
    ensures CountInUse(secrets) == 0
  {
    if |secrets| > 0 {
      CountZero(secrets[..|secrets| - 1]);
    }
  }

  lemma AuthenticatePreservesInv(st: State, cmd: Command, random: seq<u8>, now: u32)
    requires Inv(st) && cmd.Valid() && |random| == 16
    ensures Inv(Authenticate(st, cmd, random, now).st)
  {
  }

  lemma StorePreservesInv(st: State, cmd: Command, clock: seq<u32>)
    requires Inv(st) && cmd.Valid() && |clock| >= 3
    ensures Inv(Store(st, cmd, clock).st)
  {
    var check := SessionValid(st.session, clock[0]);
    if check.valid {
      var s := st.secrets;
      var idx := Find(s, cmd.name);
      if idx >= 0 {
        var s' := s[idx := s[idx].(updatedAt := clock[1])];
        assert forall i :: 0 <= i < |s'| ==> EntryWellFormed(s'[i], i) by {
          assert EntryWellFormed(s[idx], idx);
        }
        CountUpdate(s, idx, s[idx].(updatedAt := clock[1]));
      } else if FreeSlot(s) >= 0 {
        NewEntryKeepsTable(st, cmd.name, FreeSlot(s), clock[1], clock[2]);
      }
    }
  }

  /** Claiming the lowest free entry for a name not yet stored keeps the table well formed,
      the names unique and the counter exact. */
  lemma NewEntryKeepsTable(st: State, name: string, free: nat, created: u32, updated: u32)
    requires Inv(st) && |name| < MAX_NAME_LEN
    requires Find(st.secrets, name) == -1 && free < |st.secrets| && !st.secrets[free].inUse
    ensures var e := SecretMeta(name, (SLOT_SECRETS_START + free) % 256, created, updated, true);
      var s' := st.secrets[free := e];
      && TableWellFormed(s') && UniqueNames(s')
      && CountInUse(s') == (st.secretCount as nat + 1) % 256
  {
    var s := st.secrets;
    var e := SecretMeta(name, (SLOT_SECRETS_START + free) % 256, created, updated, true);
    CountUpdate(s, free, e);
    CountBound(s);
    var s' := s[free := e];
    assert UniqueNames(s') by {
      forall i, j | 0 <= i < j < |s'| && s'[i].inUse && s'[j].inUse
        ensures s'[i].name != s'[j].name
      {
        if i == free {
          assert !Holds(s[j], name);
        } else if j == free {
          assert !Holds(s[i], name);
        }
      }
    }
  }

  lemma DeletePreservesInv(st: State, cmd: Command, now: u32)
    requires Inv(st)
    ensures Inv(Delete(st, cmd, now).st)
  {
    var check := SessionValid(st.session, now);
    var idx := Find(st.secrets, cmd.name);
    if check.valid && idx >= 0 {
      CountUpdate(st.secrets, idx, FreeEntry);
    }
  }

  /** Every verb keeps the invariant. */
  lemma DispatchPreservesInv(st: State, cmd: Command, clock: seq<u32>, entropy: seq<u8>)
    requires Inv(st) && cmd.Valid() && |clock| >= 3 && |entropy| >= 64
    ensures Inv(Dispatch(st, cmd, clock, entropy).st)
  {
    match cmd.op
    case OpAuthenticate => AuthenticatePreservesInv(st, cmd, entropy[..16], clock[0]);
    case OpStore => StorePreservesInv(st, cmd, clock);
    case OpRotate => StorePreservesInv(st, cmd, clock);
    case OpDelete => DeletePreservesInv(st, cmd, clock[0]);
    case _ =>
  }

  /** Every request keeps the invariant, whatever its text. */
  lemma ProcessPreservesInv(st: State, json: string, outLen: nat, clock: seq<u32>, entropy: seq<u8>)
    requires Inv(st) && |clock| >= 3 && |entropy| >= 64
    ensures Inv(Process(st, json, outLen, clock, entropy).st)
  {
    match Parse.ParseCmd(json)
    case ParseFailed(_) =>
    case Parsed(cmd) => DispatchPreservesInv(st, cmd, clock, entropy);
  }

  // ---------------------------------------------------------------------------------------
  // STORE / ROTATE

  /** A new name on a table with room takes the lowest free index `i`, sits in slot 96 + i,
      is stamped with the two clock readings, and the counter goes up by one; nothing else
      in the table changes. */
  lemma StoreNewName(st: State, cmd: Command, clock: seq<u32>)
    requires Inv(st) && |clock| >= 3
    requires SessionValid(st.session, clock[0]).valid
    requires Find(st.secrets, cmd.name) == -1 && st.secretCount as nat < MAX_SECRETS
    ensures var o := Store(st, cmd, clock); var i := FreeSlot(st.secrets);
      && o.resp == OkResponse
      && 0 <= i < MAX_SECRETS
      && (forall j :: 0 <= j < i ==> st.secrets[j].inUse)
      && o.st.secrets[i] == SecretMeta(cmd.name, SLOT_SECRETS_START + i, clock[1], clock[2], true)
      && (forall j :: 0 <= j < |st.secrets| && j != i ==> o.st.secrets[j] == st.secrets[j])
      && |o.st.secrets| == |st.secrets|
      && o.st.secretCount == st.secretCount + 1
      && o.st.session == st.session
  {
    FreeSlotIffRoom(st);
  }

  /** An existing name keeps its entry, index, slot and creation time; only its update time
      is refreshed, and the counter stays. */
  lemma StoreExistingName(st: State, cmd: Command, clock: seq<u32>)
    requires |clock| >= 3
    requires SessionValid(st.session, clock[0]).valid
    requires Find(st.secrets, cmd.name) >= 0
    ensures var o := Store(st, cmd, clock); var i := Find(st.secrets, cmd.name);
      && o.resp == OkResponse
      && o.st.secrets[i].name == st.secrets[i].name
      && o.st.secrets[i].slotIndex == st.secrets[i].slotIndex
      && o.st.secrets[i].createdAt == st.secrets[i].createdAt
      && o.st.secrets[i].inUse
      && o.st.secrets[i].updatedAt == clock[1]
      && (forall j :: 0 <= j < |st.secrets| && j != i ==> o.st.secrets[j] == st.secrets[j])
      && |o.st.secrets| == |st.secrets|
      && o.st.secretCount == st.secretCount
  {
  }

  /** A new name on a full table is refused with CAPACITY_EXCEEDED, and the table is left
      alone. */
  lemma StoreFull(st: State, cmd: Command, clock: seq<u32>)
    requires Inv(st) && |clock| >= 3
    requires SessionValid(st.session, clock[0]).valid
    requires Find(st.secrets, cmd.name) == -1 && st.secretCount as nat == MAX_SECRETS
    ensures var o := Store(st, cmd, clock);
      && o.resp == ErrorResponse(ErrCapacity)
      && o.st.secrets == st.secrets && o.st.secretCount == st.secretCount
  {
    FreeSlotIffRoom(st);
  }

  /** With a valid session STORE succeeds exactly when the name is already stored or the
      table has room, and afterwards the name is found. */
  lemma StoreSucceedsIff(st: State, cmd: Command, clock: seq<u32>)
    requires Inv(st) && |clock| >= 3
    requires SessionValid(st.session, clock[0]).valid
    ensures var o := Store(st, cmd, clock);
      && (o.resp.ok <==> Find(st.secrets, cmd.name) >= 0 || st.secretCount as nat < MAX_SECRETS)
      && (o.resp.ok ==> Find(o.st.secrets, cmd.name) >= 0)
  {
    FreeSlotIffRoom(st);
    var o := Store(st, cmd, clock);
    if o.resp.ok {
      var i := if Find(st.secrets, cmd.name) >= 0 then Find(st.secrets, cmd.name) else FreeSlot(st.secrets);
      assert Holds(o.st.secrets[i], cmd.name);
    }
  }

  // ---------------------------------------------------------------------------------------
  // DELETE

  /** A name not stored is SECRET_NOT_FOUND, with the table unchanged. */
  lemma DeleteMissing(st: State, cmd: Command, now: u32)
    requires SessionValid(st.session, now).valid
    requires Find(st.secrets, cmd.name) == -1
    ensures var o := Delete(st, cmd, now);
      && o.resp == ErrorResponse(ErrSecretNotFound)
      && o.st.secrets == st.secrets && o.st.secretCount == st.secretCount
  {
  }

  /** A stored name has exactly its entry zeroed, the counter goes down by one, and the
      name is no longer found. */
  lemma DeletePresent(st: State, cmd: Command, now: u32)
    requires Inv(st)
    requires SessionValid(st.session, now).valid
    requires Find(st.secrets, cmd.name) >= 0
    ensures var o := Delete(st, cmd, now); var i := Find(st.secrets, cmd.name);
      && o.resp == OkResponse
      && o.st.secrets[i] == FreeEntry
      && (forall j :: 0 <= j < |st.secrets| && j != i ==> o.st.secrets[j] == st.secrets[j])
      && |o.st.secrets| == |st.secrets|
      && o.st.secretCount as nat == st.secretCount as nat - 1
      && Find(o.st.secrets, cmd.name) == -1
  {
    var i := Find(st.secrets, cmd.name);
    var o := Delete(st, cmd, now);
    CountUpdate(st.secrets, i, FreeEntry);
    forall j | 0 <= j < |o.st.secrets|
      ensures !Holds(o.st.secrets[j], cmd.name)
    {
      if j > i && st.secrets[j].inUse {
        assert st.secrets[i].name != st.secrets[j].name;
      }
    }
  }

  // ---------------------------------------------------------------------------------------
  // LIST

  /** With a valid session LIST returns the names in use, one per counted entry, each
      listed name stored and each stored name listed. */
  lemma ListExact(st: State, now: u32, name: string)
    requires Inv(st)
    requires SessionValid(st.session, now).valid
    ensures var o := List(st, now);
      && o.resp.ok
      && o.resp.listNames == ListNames(st.secrets)
      && |o.resp.listNames| == st.secretCount as nat
      && (name in o.resp.listNames <==> Find(st.secrets, name) >= 0)
      && o.st.secrets == st.secrets
  {
    ListNamesByIndex(st.secrets);
    ListMembership(st.secrets, name);
  }

  /** The listed names come in ascending slot order: the k-th name is that of the k-th entry
      in use, and their slots ascend. */
  lemma ListInSlotOrder(st: State)
    requires Inv(st)
    ensures var idx := InUseIndices(st.secrets);
      && |idx| == |ListNames(st.secrets)|
      && (forall k :: 0 <= k < |idx| ==>
            idx[k] < |st.secrets| && st.secrets[idx[k]].inUse
            && ListNames(st.secrets)[k] == st.secrets[idx[k]].name)
      && (forall k, l :: 0 <= k < l < |idx| ==> st.secrets[idx[k]].slotIndex < st.secrets[idx[l]].slotIndex)
  {
    ListNamesByIndex(st.secrets);
    InUseIndicesExact(st.secrets);
    SlotsDistinctInRange(st);
    var idx := InUseIndices(st.secrets);
    forall k | 0 <= k < |idx|
      ensures st.secrets[idx[k]].inUse
    {
      assert idx[k] in idx;
    }
  }

  // ---------------------------------------------------------------------------------------
  // AUTHENTICATE and the session

  /** Once five PIN attempts have failed, AUTHENTICATE answers PIN_LOCKED and changes
      nothing, whatever the command. */
  lemma LockoutAbsorbing(st: State, cmd: Command, random: seq<u8>, now: u32)
    requires |random| == 16
    requires st.session.pinAttempts as nat >= MAX_PIN_ATTEMPTS
    ensures Authenticate(st, cmd, random, now) == Outcome(st, ErrorResponse(ErrPinLocked))
  {
  }

  /** Once five PIN attempts have failed, the lockout survives every request: no other verb
      touches the counter, and AUTHENTICATE leaves it as it is. */
  lemma LockoutPersists(st: State, json: string, outLen: nat, clock: seq<u32>, entropy: seq<u8>)
    requires |clock| >= 3 && |entropy| >= 64
    requires st.session.pinAttempts as nat >= MAX_PIN_ATTEMPTS
    ensures Process(st, json, outLen, clock, entropy).st.session.pinAttempts == st.session.pinAttempts
  {
    match Parse.ParseCmd(json)
    case ParseFailed(_) =>
    case Parsed(cmd) =>
      if cmd.op == OpAuthenticate {
        LockoutAbsorbing(st, cmd, entropy[..16], clock[0]);
      }
  }

  /** A PIN shorter than four characters counts one failed attempt and changes nothing else. */
  lemma ShortPinCounted(st: State, cmd: Command, random: seq<u8>, now: u32)
    requires |random| == 16
    requires st.session.pinAttempts as nat < MAX_PIN_ATTEMPTS && |cmd.pin| < MIN_PIN_LEN
    ensures var o := Authenticate(st, cmd, random, now);
      && o.resp == ErrorResponse(ErrPinInvalid)
      && o.st.session.pinAttempts == st.session.pinAttempts + 1
      && o.st == st.(session := st.session.(pinAttempts := o.st.session.pinAttempts))
  {
  }

  /** A PIN of four characters or more opens a fresh session: active, attempts reset, a
      32-character hex id, the requested ttl or 300, the requested workspace or "default",
      created now; the table is untouched. */
  lemma AuthenticateSuccess(st: State, cmd: Command, random: seq<u8>, now: u32)
    requires |random| == 16
    requires st.session.pinAttempts as nat < MAX_PIN_ATTEMPTS && |cmd.pin| >= MIN_PIN_LEN
    ensures var o := Authenticate(st, cmd, random, now); var s := o.st.session;
      && o.resp.ok
      && s.active && s.pinAttempts == 0 && s.createdAt == now
      && |s.sessionId| == SESSION_ID_LEN && Hex.Decode(s.sessionId, 16) == Some(random)
      && (cmd.ttl > 0 ==> s.ttl == cmd.ttl) && (cmd.ttl == 0 ==> s.ttl as nat == DEFAULT_TTL)
      && (cmd.workspace != "" ==> s.workspace == cmd.workspace)
      && (cmd.workspace == "" ==> s.workspace == DEFAULT_WORKSPACE)
      && o.resp.auth == AuthInfo(s.sessionId, s.ttl, s.workspace)
      && o.st.secrets == st.secrets && o.st.secretCount == st.secretCount
  {
    Hex.DecodeEncode(random, 16);
  }

  /** A session opened at `now` is valid at `now` when `created_at + ttl` does not wrap. */
  lemma FreshSessionValid(st: State, cmd: Command, random: seq<u8>, now: u32)
    requires |random| == 16
    requires st.session.pinAttempts as nat < MAX_PIN_ATTEMPTS && |cmd.pin| >= MIN_PIN_LEN
    requires now as nat + (if cmd.ttl > 0 then cmd.ttl as nat else DEFAULT_TTL) < U32_MODULUS
    ensures SessionValid(Authenticate(st, cmd, random, now).st.session, now).valid
  {
  }

  /** When `created_at + ttl` wraps past 2^32 the session is already expired at its creation
      time. */
  lemma WrappedTtlExpiresAtOnce(session: Session)
    requires session.active
    requires session.createdAt as nat + session.ttl as nat >= U32_MODULUS
    ensures !SessionValid(session, session.createdAt).valid
    ensures !SessionValid(session, session.createdAt).session.active
  {
  }

  /** A check that fails leaves the session switched off, so no later check, at whatever
      time, revives it: only AUTHENTICATE makes a new session. */
  lemma ExpiryIsFinal(session: Session, now: u32, later: u32)
    requires !SessionValid(session, now).valid
    ensures !SessionValid(SessionValid(session, now).session, later).valid
  {
  }

  /** RETRIEVE on a valid session: SECRET_NOT_FOUND exactly when no entry in use holds the
      name, and otherwise the placeholder value; the table is left alone either way. */
  lemma RetrieveWithSession(st: State, cmd: Command, now: u32)
    requires SessionValid(st.session, now).valid
    ensures var o := Retrieve(st, cmd, now);
      && (o.resp == ErrorResponse(ErrSecretNotFound) <==> Find(st.secrets, cmd.name) < 0)
      && (Find(st.secrets, cmd.name) >= 0 ==> o.resp.ok && o.resp.retrieveValue == "[stored_value]")
      && o.st == st
  {
  }

  /** Every gated verb on a session that is not valid answers NOT_AUTHENTICATED and leaves
      the table as it was. */
  lemma GatedOpsDenied(st: State, cmd: Command, clock: seq<u32>, entropy: seq<u8>)
    requires |clock| >= 3 && |entropy| >= 64
    requires cmd.op in {OpStore, OpRotate, OpRetrieve, OpDelete, OpList, OpHwSign, OpHwAttest}
    requires !SessionValid(st.session, clock[0]).valid
    ensures var o := Dispatch(st, cmd, clock, entropy);
      && o.resp == ErrorResponse(ErrNotAuthenticated)
      && o.st.secrets == st.secrets && o.st.secretCount == st.secretCount
      && !o.st.session.active
  {
  }

  /** DISCOVER and HW_CHALLENGE neither check nor change the context. */
  lemma UngatedOpsLeaveState(st: State, cmd: Command, clock: seq<u32>, entropy: seq<u8>)
    requires |clock| >= 3 && |entropy| >= 64
    requires cmd.op == OpDiscover || cmd.op == OpHwChallenge
    ensures Dispatch(st, cmd, clock, entropy).st == st
    ensures Dispatch(st, cmd, clock, entropy).resp.ok
  {
  }

  /** Only the verb, name, workspace, PIN and ttl of a command matter: its `session_id`,
      `auth_method`, `value`, `key_name` and `data` never reach a handler's decision, so the
      gate trusts whatever session the context holds. */
  lemma OnlyFiveFieldsMatter(st: State, a: Command, b: Command, clock: seq<u32>, entropy: seq<u8>)
    requires |clock| >= 3 && |entropy| >= 64
    requires a.op == b.op && a.name == b.name && a.workspace == b.workspace
    requires a.pin == b.pin && a.ttl == b.ttl
    ensures Dispatch(st, a, clock, entropy) == Dispatch(st, b, clock, entropy)
  {
  }

  // ---------------------------------------------------------------------------------------
  // avp_process

  /** A request that does not parse leaves the context alone and is answered with the
      parser's code, as both kind and message, when the reply fits. */
  lemma ProcessParseFailure(st: State, json: string, outLen: nat, clock: seq<u32>, entropy: seq<u8>)
    requires |clock| >= 3 && |entropy| >= 64
    requires Parse.ParseCmd(json).ParseFailed?
    ensures var p := Process(st, json, outLen, clock, entropy); var kind := Format.ErrorStr(Parse.ParseCmd(json).code);
      && p.st == st
      && (p.ret == AvpOk ==>
            p.out == "{\"ok\":false,\"error\":" + Format.Json.Quoted(kind) + ",\"message\":" + Format.Json.Quoted(kind) + "}")
  {
    var resp := ErrorResponse(Parse.ParseCmd(json).code);
    Format.ErrorRendering(resp);
  }

  /** A handler failure is rendered with its own code as kind and message. */
  lemma HandlerFailureRendered(st: State, cmd: Command, clock: seq<u32>, entropy: seq<u8>)
    requires |clock| >= 3 && |entropy| >= 64
    requires !Dispatch(st, cmd, clock, entropy).resp.ok
    ensures var resp := Dispatch(st, cmd, clock, entropy).resp; var kind := Format.ErrorStr(RetOf(resp));
      Format.ResponseText(resp)
        == "{\"ok\":false,\"error\":" + Format.Json.Quoted(kind) + ",\"message\":" + Format.Json.Quoted(kind) + "}"
  {
    Format.ErrorRendering(Dispatch(st, cmd, clock, entropy).resp);
  }

  /** HW_CHALLENGE, a successful HW_ATTEST, STORE, ROTATE or DELETE, and LIST on an empty
      table all render as the bare `{"ok":true}`. */
  lemma BareReplies(st: State, cmd: Command, clock: seq<u32>, entropy: seq<u8>)
    requires Inv(st) && |clock| >= 3 && |entropy| >= 64
    requires cmd.op in {OpHwChallenge, OpHwAttest, OpStore, OpRotate, OpDelete, OpList}
    requires cmd.op == OpList ==> st.secretCount == 0
    requires Dispatch(st, cmd, clock, entropy).resp.ok
    ensures Format.ResponseText(Dispatch(st, cmd, clock, entropy).resp) == "{\"ok\":true}"
  {
    if cmd.op == OpList {
      ListNamesByIndex(st.secrets);
    }
    Format.BareRendering(Dispatch(st, cmd, clock, entropy).resp);
  }

  // ---------------------------------------------------------------------------------------
  // The response buffers

  /** As written, HW_SIGN hex-encodes 64 bytes into the 128-byte `hw_sign.signature`: 128
      digits and a terminator, one byte more than the buffer holds. */
  lemma HwSignOverrunsSignature(st: State, random: seq<u8>, now: u32)
    requires |random| == 64
    requires SessionValid(st.session, now).valid
    ensures var resp := HwSign(st, random, now).resp;
      && |resp.signature| + 1 == SIGNATURE_BUF_LEN + 1
      && !resp.Fits(SIGNATURE_BUF_LEN)
  {
  }

  /** With the signature buffer sized for 128 digits and the terminator, every reply a
      handler builds fits the buffers of avp_resp_t. */
  lemma RepliesFit(st: State, cmd: Command, clock: seq<u32>, entropy: seq<u8>)
    requires Inv(st) && cmd.Valid() && |clock| >= 3 && |entropy| >= 64
    ensures Dispatch(st, cmd, clock, entropy).resp.Fits(SIGNATURE_HEX_BUF_LEN)
  {
    EmptyFits();
    match cmd.op
    case OpDiscover =>
    case OpAuthenticate =>
      AuthReplyFits(st, cmd, entropy[..16], clock[0]);
    case OpStore =>
    case OpRotate =>
    case OpRetrieve =>
    case OpDelete =>
    case OpList =>
      ListReplyFits(st, clock[0]);
    case OpHwChallenge =>
    case OpHwSign =>
    case OpHwAttest =>
    case OpUnknown =>
  }

  lemma EmptyFits()
    ensures forall code :: ErrorResponse(code).Fits(SIGNATURE_HEX_BUF_LEN)
    ensures OkResponse.Fits(SIGNATURE_HEX_BUF_LEN)
  {
  }

  lemma AuthReplyFits(st: State, cmd: Command, random: seq<u8>, now: u32)
    requires Inv(st) && cmd.Valid() && |random| == 16
    ensures Authenticate(st, cmd, random, now).resp.Fits(SIGNATURE_HEX_BUF_LEN)
  {
  }

  lemma ListReplyFits(st: State, now: u32)
    requires Inv(st)
    ensures List(st, now).resp.Fits(SIGNATURE_HEX_BUF_LEN)
  {
    ListNamesByIndex(st.secrets);
    CountBound(st.secrets);
    InUseIndicesExact(st.secrets);
    var names := ListNames(st.secrets);
    forall k | 0 <= k < |names|
      ensures |names[k]| < MAX_NAME_LEN
    {
      var i := InUseIndices(st.secrets)[k];
      assert i in InUseIndices(st.secrets);
      assert EntryWellFormed(st.secrets[i], i);
    }
  }
}
