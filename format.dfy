/** `avp_error_str` and `avp_format_resp` (avp/avp.c): error kind names, the one JSON shape
    chosen for a response record, and the `n >= len` overflow check. */
module Format {
  import opened AvpTypes
  import opened Decimal
  import Json

  /** `avp_error_str`: the kind name of each return code. */
  function ErrorStr(err: Ret): (s: string)
    ensures |s| > 0
  {
    match err
    case AvpOk => "OK"
    case ErrParse => "PARSE_ERROR"
    case ErrInvalidOp => "INVALID_OPERATION"
    case ErrInvalidParam => "INVALID_PARAMETER"
    case ErrNotAuthenticated => "NOT_AUTHENTICATED"
    case ErrSessionExpired => "SESSION_EXPIRED"
    case ErrSecretNotFound => "SECRET_NOT_FOUND"
    case ErrCapacity => "CAPACITY_EXCEEDED"
    case ErrHardware => "HARDWARE_ERROR"
    case ErrCrypto => "CRYPTO_ERROR"
    case ErrPinInvalid => "PIN_INVALID"
    case ErrPinLocked => "PIN_LOCKED"
    case ErrInternal => "INTERNAL_ERROR"
  }

  /** The return code a kind name stands for, if any. */
  function KindOf(s: string): (r: Option<Ret>)
    ensures r.Some? ==> ErrorStr(r.value) == s
  {
    if s == "OK" then Some(AvpOk)
    else if s == "PARSE_ERROR" then Some(ErrParse)
    else if s == "INVALID_OPERATION" then Some(ErrInvalidOp)
    else if s == "INVALID_PARAMETER" then Some(ErrInvalidParam)
    else if s == "NOT_AUTHENTICATED" then Some(ErrNotAuthenticated)
    else if s == "SESSION_EXPIRED" then Some(ErrSessionExpired)
    else if s == "SECRET_NOT_FOUND" then Some(ErrSecretNotFound)
    else if s == "CAPACITY_EXCEEDED" then Some(ErrCapacity)
    else if s == "HARDWARE_ERROR" then Some(ErrHardware)
    else if s == "CRYPTO_ERROR" then Some(ErrCrypto)
    else if s == "PIN_INVALID" then Some(ErrPinInvalid)
    else if s == "PIN_LOCKED" then Some(ErrPinLocked)
    else if s == "INTERNAL_ERROR" then Some(ErrInternal)
    else None
  }

  /** Every code has its own kind name: the name gives the code back. */
  lemma ErrorStrRoundTrip(err: Ret)
    ensures KindOf(ErrorStr(err)) == Some(err)
  {
  }

  lemma ErrorStrInjective(a: Ret, b: Ret)
    ensures ErrorStr(a) == ErrorStr(b) <==> a == b
  {
    ErrorStrRoundTrip(a);
    ErrorStrRoundTrip(b);
  }

  /** A JSON value as the formatter writes it: strings quoted without escaping, numbers as
      `%u`, booleans as `true`/`false`, arrays of strings and nested objects. */
  datatype Value = Str(s: string) | Num(n: nat) | Bool(b: bool) | Strings(items: seq<string>)
                 | Object(members: seq<Member>)

  datatype Member = Member(key: string, value: Value)

  /** The text of a value. */
  function Render(v: Value): string
    decreases v
  {
    match v
    case Str(s) => Json.Quoted(s)
    case Num(n) => DecimalString(n)
    case Bool(b) => if b then "true" else "false"
    case Strings(items) => "[" + Items(items) + "]"
    case Object(ms) => "{" + Members(ms) + "}"
  }

  /** `"key":value` for each member, separated by commas. */
  function Members(ms: seq<Member>): string
    decreases ms
  {
    if |ms| == 0 then ""
    else
      var m := ms[|ms| - 1];
      Members(ms[..|ms| - 1]) + (if |ms| > 1 then "," else "") + Json.Quoted(m.key) + ":" + Render(m.value)
  }

  /** The quoted strings separated by commas. */
  function Items(items: seq<string>): string {
    if |items| == 0 then ""
    else Items(items[..|items| - 1]) + (if |items| > 1 then "," else "") + Json.Quoted(items[|items| - 1])
  }

  /** No key occurs twice among the members. */
  predicate DistinctKeys(ms: seq<Member>) {
    forall i, j :: 0 <= i < j < |ms| ==> ms[i].key != ms[j].key
  }

  /** The shape `avp_format_resp` picks for a response record: an error, or the first of
      version, session id, value, names, challenge, signature that is non-empty. */
  datatype Shape = ErrorShape | DiscoverShape | AuthShape | ValueShape | ListShape
                 | ChallengeShape | SignatureShape | BareShape

  function ShapeOf(resp: Response): (r: Shape)
    ensures r == ErrorShape <==> !resp.ok
    ensures r == BareShape <==>
      (&& resp.ok && resp.discover.version == "" && resp.auth.sessionId == "" && resp.retrieveValue == ""
       && resp.listNames == [] && resp.challenge.challenge == "" && resp.signature == "")
    ensures r == ListShape ==> |resp.listNames| > 0
  {
    if !resp.ok then ErrorShape
    else if resp.discover.version != "" then DiscoverShape
    else if resp.auth.sessionId != "" then AuthShape
    else if resp.retrieveValue != "" then ValueShape
    else if |resp.listNames| > 0 then ListShape
    else if resp.challenge.challenge != "" then ChallengeShape
    else if resp.signature != "" then SignatureShape
    else BareShape
  }

  /** The message of an error reply: the record's own, or else the kind name. */
  function MessageOf(resp: Response): string {
    if resp.errorMsg != "" then resp.errorMsg else ErrorStr(resp.errorCode)
  }

  /** The members of the object written for a response, in the order of the format string;
      the first is always the `ok` flag. */
  function ReplyOf(resp: Response): (ms: seq<Member>)
    ensures |ms| > 0 && ms[0] == Member("ok", Bool(resp.ok))
  {
    var ok := [Member("ok", Bool(resp.ok))];
    match ShapeOf(resp)
    case ErrorShape =>
      ok + [Member("error", Str(ErrorStr(resp.errorCode))), Member("message", Str(MessageOf(resp)))]
    case DiscoverShape =>
      var d := resp.discover;
      ok + [Member("version", Str(d.version)),
            Member("backend_type", Str(d.backendType)),
            Member("manufacturer", Str(d.manufacturer)),
            Member("model", Str(d.model)),
            Member("serial", Str(d.serial)),
            Member("capabilities", Object([
              Member("hw_sign", Bool(d.supportsHwSign)),
              Member("hw_attest", Bool(d.supportsHwAttest)),
              Member("max_secrets", Num(d.maxSecrets)),
              Member("max_secret_size", Num(d.maxSecretSize))]))]
    case AuthShape =>
      ok + [Member("session_id", Str(resp.auth.sessionId)),
            Member("expires_in", Num(resp.auth.expiresIn)),
            Member("workspace", Str(resp.auth.workspace))]
    case ValueShape => ok + [Member("value", Str(resp.retrieveValue))]
    case ListShape => ok + [Member("secrets", Strings(resp.listNames))]
    case ChallengeShape =>
      ok + [Member("verified", Bool(resp.challenge.verified)),
            Member("model", Str(resp.challenge.model)),
            Member("serial", Str(resp.challenge.serial))]
    case SignatureShape => ok + [Member("signature", Str(resp.signature))]
    case BareShape => ok
  }

  /** The whole text `snprintf` would produce for a response, given room enough. */
  function ResponseText(resp: Response): string {
    Render(Object(ReplyOf(resp)))
  }

  const ListHead: string := "{\"ok\":true,\"secrets\":["
  const ListTail: string := "]}"

  /** What `snprintf` leaves in a buffer of `len` bytes: at most `len - 1` characters of the
      text, then the terminator. */
  function Fit(text: string, len: nat): (out: string)
    ensures |out| <= |text| && out == text[..|out|]
    ensures len > 0 ==> |out| < len
    ensures |text| < len ==> out == text
  {
    if len == 0 then "" else if |text| < len then text else text[..len - 1]
  }

  datatype Formatted = Formatted(ret: Ret, out: string)

  /** `avp_format_resp` into a buffer of `len` bytes. */
  /** The formatter succeeds exactly when the whole response fits with its terminator, and
      then the buffer holds all of it; otherwise it reports INTERNAL_ERROR and the buffer
      holds a cut prefix. */
  function FormatResp(resp: Response, len: nat): (f: Formatted)
    ensures f.ret == AvpOk <==> |ResponseText(resp)| < len
    ensures f.ret != AvpOk ==> f.ret == ErrInternal
    ensures f.ret == AvpOk ==> f.out == ResponseText(resp)
    ensures len > 0 ==> |f.out| < len
  {
    var text := ResponseText(resp);
    Formatted(if |text| >= len then ErrInternal else AvpOk, Fit(text, len))
  }

  /** The members of a prefix render to a prefix of the members' text. */
  lemma {:induction false} MembersPrefix(ms: seq<Member>, k: nat)
    requires k <= |ms|
    ensures |Members(ms[..k])| <= |Members(ms)|
    ensures Members(ms)[..|Members(ms[..k])|] == Members(ms[..k])
  {
    if k < |ms| {
      var init := ms[..|ms| - 1];
      MembersPrefix(init, k);
      assert init[..k] == ms[..k];
    } else {
      assert ms[..k] == ms;
    }
  }

  /** The rendering opens with `{"ok":true` for a successful record and with `{"ok":false`
      for a failed one. */
  lemma OkFlagRendered(resp: Response)
    ensures var head := "{\"ok\":" + (if resp.ok then "true" else "false");
      |head| <= |ResponseText(resp)| && ResponseText(resp)[..|head|] == head
  {
    OkFirstRendered(ReplyOf(resp), resp.ok);
  }

  /** An object whose first member is `"ok"` renders with that flag at its head. */
  lemma OkFirstRendered(ms: seq<Member>, ok: bool)
    requires |ms| > 0 && ms[0] == Member("ok", Bool(ok))
    ensures var head := "{\"ok\":" + (if ok then "true" else "false");
      |head| <= |Render(Object(ms))| && Render(Object(ms))[..|head|] == head
  {
    var first := "\"ok\":" + (if ok then "true" else "false");
    assert ms[..1] == [Member("ok", Bool(ok))];
    OkMemberText(ok);
    MembersPrefix(ms, 1);
    var all := Members(ms);
    assert all[..|first|] == first;
    var text := Render(Object(ms));
    assert text == "{" + all + "}";
    assert text[..1 + |first|] == "{" + first;
  }

  /** The text of the single member `"ok":<flag>`. */
  lemma OkMemberText(ok: bool)
    ensures Members([Member("ok", Bool(ok))]) == "\"ok\":" + (if ok then "true" else "false")
  {
    var one := [Member("ok", Bool(ok))];
    assert one[..0] == [];
    assert Members(one[..0]) == "";
    assert Render(Bool(ok)) == (if ok then "true" else "false");
    assert Json.Quoted("ok") == "\"ok\"";
  }


  /** A failure renders `{"ok":false,"error":K,"message":M}` with K the kind name of the
      code, and M the record's message or, when it carries none, K again. */
  lemma ErrorRendering(resp: Response)
    requires !resp.ok
    ensures ResponseText(resp)
      == "{\"ok\":false,\"error\":" + Json.Quoted(ErrorStr(resp.errorCode))
         + ",\"message\":" + Json.Quoted(MessageOf(resp)) + "}"
    ensures resp.errorMsg == "" ==> MessageOf(resp) == ErrorStr(resp.errorCode)
  {
    var ms := ReplyOf(resp);
    assert ms[..1][..0] == [];
    assert ms[..2][..1] == ms[..1];
    assert ms[..3] == ms;
    var kind := ErrorStr(resp.errorCode);
    assert Members(ms[..1]) == Json.Quoted("ok") + ":" + "false";
    assert Members(ms[..2]) == Members(ms[..1]) + "," + Json.Quoted("error") + ":" + Json.Quoted(kind);
    assert Members(ms) == Members(ms[..2]) + "," + Json.Quoted("message") + ":" + Json.Quoted(MessageOf(resp));
    ErrorRegroup(kind, MessageOf(resp));
  }

  lemma ErrorRegroup(kind: string, message: string)
    ensures var q := Json.Quoted;
      "{" + (q("ok") + ":" + "false" + "," + q("error") + ":" + q(kind) + "," + q("message") + ":" + q(message)) + "}"
      == "{\"ok\":false,\"error\":" + q(kind) + ",\"message\":" + q(message) + "}"
  {
    var q := Json.Quoted;
    var a := q("ok") + ":" + "false" + "," + q("error") + ":";
    var b := "," + q("message") + ":";
    assert "{" + a == "{\"ok\":false,\"error\":";
    assert b == ",\"message\":";
    assert a + q(kind) + "," + q("message") + ":" + q(message) == a + q(kind) + b + q(message);
  }

  /** A successful record with no version, session id, value, names, challenge or signature
      renders bare, whatever else it carries. */
  lemma BareRendering(resp: Response)
    requires ShapeOf(resp) == BareShape
    ensures ResponseText(resp) == "{\"ok\":true}"
  {
    var ms := ReplyOf(resp);
    assert ms == [Member("ok", Bool(true))];
    assert ms[..0] == [];
    assert Members(ms) == Json.Quoted("ok") + ":" + "true";
  }

  /** A successful record with names renders them, in order, in the `secrets` array. */
  lemma ListRendering(resp: Response)
    requires ShapeOf(resp) == ListShape
    ensures ResponseText(resp) == ListHead + Items(resp.listNames) + ListTail
  {
    var ms := ReplyOf(resp);
    assert ms[..1][..0] == [];
    assert ms[..2] == ms;
    assert Members(ms[..1]) == Json.Quoted("ok") + ":" + "true";
    assert Members(ms) == Json.Quoted("ok") + ":" + "true" + "," + Json.Quoted("secrets") + ":"
      + ("[" + Items(resp.listNames) + "]");
    ListRegroup(Items(resp.listNames));
  }

  lemma ListRegroup(items: string)
    ensures var q := Json.Quoted;
      "{" + (q("ok") + ":" + "true" + "," + q("secrets") + ":" + ("[" + items + "]")) + "}"
      == ListHead + items + ListTail
  {
    var q := Json.Quoted;
    assert "{" + (q("ok") + ":" + "true" + "," + q("secrets") + ":") + "[" == ListHead;
  }

  /** The attestation text is never rendered. */
  lemma AttestationNotRendered(resp: Response, attestation: string)
    ensures ResponseText(resp.(attestation := attestation)) == ResponseText(resp)
  {
    assert ShapeOf(resp.(attestation := attestation)) == ShapeOf(resp);
    assert MessageOf(resp.(attestation := attestation)) == MessageOf(resp);
  }

  /** Every object written is a JSON object without duplicate keys. */
  lemma ReplyKeysDistinct(resp: Response)
    ensures DistinctKeys(ReplyOf(resp))
  {
    match ShapeOf(resp)
    case ErrorShape =>
    case DiscoverShape =>
    case AuthShape =>
    case ValueShape =>
    case ListShape =>
    case ChallengeShape =>
    case SignatureShape =>
    case BareShape =>
  }

  lemma {:induction false} ItemsLength(items: seq<string>)
    ensures |Items(items)| == ItemsWidth(items)
  {
    if |items| > 0 {
      ItemsLength(items[..|items| - 1]);
    }
  }

  /** The characters the items take: each quoted, with a comma between two. */
  function ItemsWidth(items: seq<string>): nat {
    if |items| == 0 then 0
    else ItemsWidth(items[..|items| - 1]) + (if |items| > 1 then 1 else 0) + |items[|items| - 1]| + 2
  }

  /** The running offset `n` of the name loop as written: it goes on while `n < len - 10`,
      however long the next name is. `shown` counts the names written. */
  datatype ListRun = ListRun(shown: nat, n: int)

  function ListLoopAsWritten(names: seq<string>, len: nat, i: nat, n: int): (r: ListRun)
    requires i <= |names|
    ensures i <= r.shown <= |names|
    decreases |names| - i
  {
    if i < |names| && n < len - 10 then
      ListLoopAsWritten(names, len, i + 1, n + (if i > 0 then 1 else 0) + |names[i]| + 2)
    else ListRun(i, n)
  }

  /** The LIST branch as written: the names shown, the offset at which `]}` is written, and
      the code returned. */
  method ListAsWritten(names: seq<string>, len: nat) returns (shown: nat, tailAt: int, ret: Ret)
    ensures ListRun(shown, tailAt) == ListLoopAsWritten(names, len, 0, |ListHead|)
    ensures ret == if tailAt + |ListTail| >= len then ErrInternal else AvpOk
  {
    var n: int := |ListHead|;
    var i := 0;
    while i < |names| && n < len - 10
      invariant 0 <= i <= |names|
      invariant ListLoopAsWritten(names, len, i, n) == ListLoopAsWritten(names, len, 0, |ListHead|)
    {
      if i > 0 {
        n := n + 1;
      }
      n := n + |names[i]| + 2;
      i := i + 1;
    }
    shown, tailAt := i, n;
    ret := if tailAt + |ListTail| >= len then ErrInternal else AvpOk;
  }

  /** As written, a 30-byte buffer and one 10-character name give AVP_OK for
      `{"ok":true,"secrets":[]}`: the name is dropped without an error. */
  lemma ListAsWrittenDropsName()
    ensures ListLoopAsWritten(["abcdefghij"], 30, 0, |ListHead|) == ListRun(0, |ListHead|)
    ensures |ListHead| + |ListTail| < 30
  {
  }

  /** As written, a 33-byte buffer and one 20-character name leave the offset at 44, so `]}`
      is written at offset 44 of a 33-byte buffer. */
  lemma ListAsWrittenOverruns()
    ensures ListLoopAsWritten(["abcdefghijklmnopqrst"], 33, 0, |ListHead|) == ListRun(1, 44)
    ensures 44 > 33
  {
    assert |"abcdefghijklmnopqrst"| == 20;
  }

  /** The corrected list rendering: every name is written, and the formatter reports OK only
      when all of them fit. */
  lemma ListRendersAllNames(names: seq<string>, len: nat)
    requires |names| > 0
    ensures var resp := EmptyResponse.(ok := true, listNames := names);
      && ResponseText(resp) == ListHead + Items(names) + ListTail
      && |ResponseText(resp)| == |ListHead| + ItemsWidth(names) + |ListTail|
      && (FormatResp(resp, len).ret == AvpOk <==> |ListHead| + ItemsWidth(names) + |ListTail| < len)
  {
    var resp := EmptyResponse.(ok := true, listNames := names);
    ListRendering(resp);
    ItemsLength(names);
  }

  /** The `avp_format_resp` code path: one `snprintf` for every shape but the list, whose
      names are appended one by one to the running text. */
  method FormatRespBuffer(resp: Response, len: nat) returns (ret: Ret, out: string)
    ensures Formatted(ret, out) == FormatResp(resp, len)
  {
    var text: string;
    if ShapeOf(resp) == ListShape {
      var names := resp.listNames;
      text := ListHead;
      var i := 0;
      while i < |names|
        invariant 0 <= i <= |names|
        invariant text == ListHead + Items(names[..i])
      {
        assert names[..i + 1][..i] == names[..i];
        if i > 0 {
          text := text + ",";
        }
        text := text + Json.Quoted(names[i]);
        i := i + 1;
      }
      assert names[..i] == names;
      text := text + ListTail;
      ListRendering(resp);
    } else {
      text := Render(Object(ReplyOf(resp)));
    }
    out := Fit(text, len);
    ret := if |text| >= len then ErrInternal else AvpOk;
  }
}
