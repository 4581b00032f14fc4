/** `avp_parse_cmd` (avp/avp.c): the verb, then every optional field, read with the
    substring-scanning extractors into buffers of fixed size. */
module Parse {
  import opened AvpTypes
  import opened Json
  import Hex

  /** The verb of a command name, or OpUnknown for any other text. */
  function OpFromName(s: string): (op: Op)
    ensures op != OpUnknown ==> OpName(op) == s
  {
    if s == "DISCOVER" then OpDiscover
    else if s == "AUTHENTICATE" then OpAuthenticate
    else if s == "STORE" then OpStore
    else if s == "RETRIEVE" then OpRetrieve
    else if s == "DELETE" then OpDelete
    else if s == "LIST" then OpList
    else if s == "ROTATE" then OpRotate
    else if s == "HW_CHALLENGE" then OpHwChallenge
    else if s == "HW_SIGN" then OpHwSign
    else if s == "HW_ATTEST" then OpHwAttest
    else OpUnknown
  }

  /** Every verb is recognised by its own name, and no name is recognised as two verbs. */
  lemma OpNameRoundTrip(op: Op)
    requires op != OpUnknown
    ensures OpFromName(OpName(op)) == op
    ensures |OpName(op)| < OP_BUF_LEN && '"' !in OpName(op)
  {
  }

  datatype ParseResult = Parsed(cmd: Command) | ParseFailed(code: Ret)

  /** An optional string field: the buffer stays empty when the field is not found. */
  function OptString(json: string, key: string, bufLen: nat): (v: string)
    requires bufLen >= 1
    ensures |v| < bufLen && '"' !in v
    ensures FindString(json, key, bufLen).None? ==> v == ""
    ensures FindString(json, key, bufLen).Some? ==> v == FindString(json, key, bufLen).value
  {
    match FindString(json, key, bufLen)
    case None => ""
    case Some(s) => s
  }

  /** The ttl: 300 unless `ttl` is found, and `requested_ttl`, read second, wins. */
  function TtlOf(json: string): u32 {
    match FindInt(json, "requested_ttl")
    case Some(t) => t
    case None =>
      match FindInt(json, "ttl")
      case Some(t) => t
      case None => DEFAULT_TTL
  }

  /** `data_len` bytes of the data buffer: the decoded `data` field when decoding yields at
      least one byte, otherwise nothing. */
  function DataOf(json: string): (d: seq<u8>)
    ensures |d| < DATA_BUF_LEN
  {
    match FindString(json, "data", DATA_HEX_BUF_LEN)
    case None => []
    case Some(h) =>
      match Hex.Decode(h, DATA_BUF_LEN)
      case None => []
      case Some(bytes) =>
        bytes
  }

  /** `avp_parse_cmd`: PARSE_ERROR without a string `op`, INVALID_OPERATION for an unknown
      verb, otherwise a command whose fields all fit their buffers. */
  function ParseCmd(json: string): (r: ParseResult)
    ensures r.Parsed? ==> r.cmd.Valid() && r.cmd.op != OpUnknown
    ensures r.Parsed? ==> '"' !in r.cmd.name && '"' !in r.cmd.workspace && '"' !in r.cmd.pin
    ensures r.ParseFailed? ==> r.code == ErrParse || r.code == ErrInvalidOp
  {
    match FindString(json, "op", OP_BUF_LEN)
    case None => ParseFailed(ErrParse)
    case Some(verb) =>
      var op := OpFromName(verb);
      if op == OpUnknown then ParseFailed(ErrInvalidOp)
      else
        Parsed(Command(
          op,
          OptString(json, "session_id", SESSION_ID_BUF_LEN),
          OptString(json, "workspace", MAX_NAME_LEN),
          OptString(json, "name", MAX_NAME_LEN),
          OptString(json, "value", MAX_VALUE_LEN),
          OptString(json, "auth_method", AUTH_BUF_LEN),
          OptString(json, "pin", AUTH_BUF_LEN),
          TtlOf(json),
          OptString(json, "key_name", MAX_NAME_LEN),
          DataOf(json)))
  }

  /** A missing or non-string `op` is a parse error, an unknown verb an invalid operation,
      and both directions hold. */
  lemma ParseErrors(json: string)
    ensures ParseCmd(json) == ParseFailed(ErrParse) <==> FindString(json, "op", OP_BUF_LEN).None?
    ensures ParseCmd(json) == ParseFailed(ErrInvalidOp)
      <==> (FindString(json, "op", OP_BUF_LEN).Some?
            && OpFromName(FindString(json, "op", OP_BUF_LEN).value) == OpUnknown)
  {
  }

  /** A command that opens with `"op":"<verb>"` is parsed as that verb. */
  lemma ParseVerb(op: Op, rest: string)
    requires op != OpUnknown
    ensures var json := "{" + Quoted("op") + ":" + Quoted(OpName(op)) + rest;
      ParseCmd(json).Parsed? && ParseCmd(json).cmd.op == op
  {
    OpNameRoundTrip(op);
    FindStringField("{", "op", OpName(op), rest, OP_BUF_LEN);
  }

  /** The ttl defaults to 300; a `requested_ttl` overrides any `ttl`. */
  lemma TtlChoice(json: string)
    ensures FindInt(json, "requested_ttl").Some? ==> TtlOf(json) == FindInt(json, "requested_ttl").value
    ensures FindInt(json, "requested_ttl").None? && FindInt(json, "ttl").Some?
      ==> TtlOf(json) == FindInt(json, "ttl").value
    ensures FindInt(json, "requested_ttl").None? && FindInt(json, "ttl").None? ==> TtlOf(json) == DEFAULT_TTL
  {
  }

  /** `data_len` is set only when decoding yields at least one byte. */
  lemma DataOnlyWhenDecoded(json: string)
    ensures |DataOf(json)| > 0 ==>
      FindString(json, "data", DATA_HEX_BUF_LEN).Some?
      && Hex.Decode(FindString(json, "data", DATA_HEX_BUF_LEN).value, DATA_BUF_LEN) == Some(DataOf(json))
  {
  }

  /** Bytes sent hex-encoded in the `data` field come back as the command's data, as long as
      there are at most 255 of them. */
  lemma DataRoundTrip(json: string, bytes: seq<u8>)
    requires |bytes| < DATA_BUF_LEN
    requires FindString(json, "data", DATA_HEX_BUF_LEN) == Some(Hex.Encode(bytes))
    ensures DataOf(json) == bytes
  {
    Hex.DecodeEncode(bytes, DATA_BUF_LEN);
  }

  /** A `data` field written after text without '"' is the one found, whole when it is
      shorter than the 512-byte buffer. */
  lemma DataFieldFound(prefix: string, hex: string, rest: string)
    requires '"' !in prefix && '"' !in hex && |hex| < DATA_HEX_BUF_LEN
    ensures FindString(prefix + Quoted("data") + ":" + Quoted(hex) + rest, "data", DATA_HEX_BUF_LEN) == Some(hex)
  {
    FindStringField(prefix, "data", hex, rest, DATA_HEX_BUF_LEN);
  }

  /** What `hex_encode` writes for at most 255 bytes fits the buffer and holds no '"'. */
  lemma EncodedDataFits(bytes: seq<u8>)
    requires |bytes| < DATA_BUF_LEN
    ensures |Hex.Encode(bytes)| < DATA_HEX_BUF_LEN && '"' !in Hex.Encode(bytes)
  {
    Hex.EncodeLowerCase(bytes);
  }

  /** A `data` field of 512 hex characters is cut to 511 by the 512-byte buffer, fails to
      decode as an odd length, and leaves the command without data. */
  lemma FullLengthDataDropped(prefix: string, hex: string, rest: string)
    requires '"' !in prefix && '"' !in hex
    requires |hex| == DATA_HEX_BUF_LEN
    ensures DataOf(prefix + Quoted("data") + ":" + Quoted(hex) + rest) == []
  {
    FindStringField(prefix, "data", hex, rest, DATA_HEX_BUF_LEN);
  }
}
