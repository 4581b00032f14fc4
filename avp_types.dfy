/** Constants, return codes, verbs and the records exchanged by the AVP engine (avp/avp.h).
    C strings are modelled as the characters before their terminator; fixed-size buffers
    become bounds in the `Valid` predicates. */
module AvpTypes {

  // Configuration (avp/avp.h and the top of avp/avp.c)
  const MAX_JSON_LEN: nat := 1024
  const MAX_NAME_LEN: nat := 64
  const MAX_VALUE_LEN: nat := 512
  const MAX_SECRETS: nat := 32
  const DEFAULT_TTL: nat := 300
  const SESSION_ID_LEN: nat := 32
  const MAX_PIN_ATTEMPTS: nat := 5
  const SLOT_SECRETS_START: nat := 96
  const SLOT_SECRETS_END: nat := 127

  // Sizes of the remaining command buffers
  const OP_BUF_LEN: nat := 32
  const SESSION_ID_BUF_LEN: nat := 33
  const AUTH_BUF_LEN: nat := 16
  const DATA_BUF_LEN: nat := 256
  const DATA_HEX_BUF_LEN: nat := 512
  const MIN_PIN_LEN: nat := 4

  // Fixed strings of the DISCOVER, HW_CHALLENGE and HW_ATTEST handlers
  const VERSION: string := "0.1.0"
  const BACKEND_TYPE: string := "hardware"
  const MANUFACTURER: string := "AVP Protocol"
  const MODEL: string := "NexusClaw"
  const SERIAL: string := "NC00000001"
  const SE_MODEL: string := "TROPIC01"
  const ATTESTATION: string := "{\"model\":\"TROPIC01\",\"firmware\":\"1.0.0\"}"
  const DEFAULT_WORKSPACE: string := "default"
  const MAX_SECRET_SIZE: nat := 256

  const U32_MODULUS: nat := 0x1_0000_0000

  // Sizes of the string buffers of avp_resp_t
  const ERROR_MSG_BUF_LEN: nat := 128
  const VERSION_BUF_LEN: nat := 16
  const BACKEND_BUF_LEN: nat := 16
  const LABEL_BUF_LEN: nat := 32
  const CHALLENGE_BUF_LEN: nat := 64
  const RESPONSE_SIG_BUF_LEN: nat := 128
  const ATTESTATION_BUF_LEN: nat := 512
  /** `hw_sign.signature` as declared. */
  const SIGNATURE_BUF_LEN: nat := 128
  /** What `hex_encode` of the 64-byte placeholder signature needs: 128 digits and the
      terminator. */
  const SIGNATURE_HEX_BUF_LEN: nat := 129

  /** uint32_t */
  type u32 = x: int | 0 <= x < 0x1_0000_0000
  /** uint8_t */
  type u8 = x: int | 0 <= x < 0x100

  datatype Option<T> = None | Some(value: T)

  /** avp_ret_t: AVP_OK followed by twelve error kinds. */
  datatype Ret =
    | AvpOk
    | ErrParse
    | ErrInvalidOp
    | ErrInvalidParam
    | ErrNotAuthenticated
    | ErrSessionExpired
    | ErrSecretNotFound
    | ErrCapacity
    | ErrHardware
    | ErrCrypto
    | ErrPinInvalid
    | ErrPinLocked
    | ErrInternal

  /** avp_op_t: UNKNOWN followed by the ten verbs. */
  datatype Op =
    | OpUnknown
    | OpDiscover
    | OpAuthenticate
    | OpStore
    | OpRetrieve
    | OpDelete
    | OpList
    | OpRotate
    | OpHwChallenge
    | OpHwSign
    | OpHwAttest

  /** avp_secret_meta_t: one entry of the secret metadata table. */
  datatype SecretMeta = SecretMeta(name: string, slotIndex: u8, createdAt: u32, updatedAt: u32, inUse: bool)

  /** An entry as memset(0) leaves it. */
  const FreeEntry: SecretMeta := SecretMeta("", 0, 0, 0, false)

  /** avp_session_t */
  datatype Session = Session(
    active: bool,
    sessionId: string,
    workspace: string,
    createdAt: u32,
    ttl: u32,
    pinAttempts: u8)

  /** The session as memset(0) leaves it. */
  const InitialSession: Session := Session(false, "", "", 0, 0, 0)

  /** avp_cmd_t; `data` holds the first `data_len` bytes of the C buffer. */
  datatype Command = Command(
    op: Op,
    sessionId: string,
    workspace: string,
    name: string,
    value: string,
    authMethod: string,
    pin: string,
    ttl: u32,
    keyName: string,
    data: seq<u8>)
  {
    /** Every string fits its buffer with room for the terminator. */
    predicate Valid() {
      && |sessionId| < SESSION_ID_BUF_LEN
      && |workspace| < MAX_NAME_LEN
      && |name| < MAX_NAME_LEN
      && |value| < MAX_VALUE_LEN
      && |authMethod| < AUTH_BUF_LEN
      && |pin| < AUTH_BUF_LEN
      && |keyName| < MAX_NAME_LEN
      && |data| <= DATA_BUF_LEN
    }
  }

  /** The `discover` part of avp_resp_t. */
  datatype DiscoverInfo = DiscoverInfo(
    version: string,
    backendType: string,
    manufacturer: string,
    model: string,
    serial: string,
    supportsHwSign: bool,
    supportsHwAttest: bool,
    maxSecrets: u32,
    maxSecretSize: u32)

  /** The `auth` part of avp_resp_t. */
  datatype AuthInfo = AuthInfo(sessionId: string, expiresIn: u32, workspace: string)

  /** The `hw_challenge` part of avp_resp_t. */
  datatype ChallengeInfo = ChallengeInfo(
    challenge: string,
    responseSig: string,
    verified: bool,
    model: string,
    serial: string)

  /** avp_resp_t; `listNames` holds the first `list.count` names. */
  datatype Response = Response(
    ok: bool,
    errorCode: Ret,
    errorMsg: string,
    discover: DiscoverInfo,
    auth: AuthInfo,
    retrieveValue: string,
    listNames: seq<string>,
    challenge: ChallengeInfo,
    signature: string,
    attestation: string)
  {
    /** Every string, terminator included, fits its buffer, the signature one of
        `signatureBufLen` bytes; at most 32 names are listed. */
    predicate Fits(signatureBufLen: nat) {
      && |errorMsg| < ERROR_MSG_BUF_LEN
      && |discover.version| < VERSION_BUF_LEN
      && |discover.backendType| < BACKEND_BUF_LEN
      && |discover.manufacturer| < LABEL_BUF_LEN
      && |discover.model| < LABEL_BUF_LEN
      && |discover.serial| < LABEL_BUF_LEN
      && |auth.sessionId| < SESSION_ID_BUF_LEN
      && |auth.workspace| < MAX_NAME_LEN
      && |retrieveValue| < MAX_VALUE_LEN
      && |listNames| <= MAX_SECRETS
      && (forall i :: 0 <= i < |listNames| ==> |listNames[i]| < MAX_NAME_LEN)
      && |challenge.challenge| < CHALLENGE_BUF_LEN
      && |challenge.responseSig| < RESPONSE_SIG_BUF_LEN
      && |challenge.model| < LABEL_BUF_LEN
      && |challenge.serial| < LABEL_BUF_LEN
      && |signature| < signatureBufLen
      && |attestation| < ATTESTATION_BUF_LEN
    }
  }

  /** The response record as memset(0) leaves it at the start of avp_process. */
  const EmptyResponse: Response := Response(
    false, AvpOk, "",
    DiscoverInfo("", "", "", "", "", false, false, 0, 0),
    AuthInfo("", 0, ""),
    "", [],
    ChallengeInfo("", "", false, "", ""),
    "", "")

  /** What a handler stores in the response record when it fails with `code`. */
  function ErrorResponse(code: Ret): (r: Response)
    ensures !r.ok && r.errorCode == code && r.errorMsg == ""
  {
    EmptyResponse.(errorCode := code)
  }

  /** What a handler returns along with its response record. */
  function RetOf(resp: Response): Ret {
    if resp.ok then AvpOk else resp.errorCode
  }

  /** The command name of each verb as `avp_parse_cmd` compares it. */
  function OpName(op: Op): string {
    match op
    case OpUnknown => ""
    case OpDiscover => "DISCOVER"
    case OpAuthenticate => "AUTHENTICATE"
    case OpStore => "STORE"
    case OpRetrieve => "RETRIEVE"
    case OpDelete => "DELETE"
    case OpList => "LIST"
    case OpRotate => "ROTATE"
    case OpHwChallenge => "HW_CHALLENGE"
    case OpHwSign => "HW_SIGN"
    case OpHwAttest => "HW_ATTEST"
  }
}
