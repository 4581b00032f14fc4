/** The substring-scanning field extractors of avp/avp.c (`json_find_string`, `json_find_int`).
    They are not a JSON parser: a field is found by the first occurrence of its quoted key
    anywhere in the text, followed by the first ':' after that occurrence. */
module Json {
  import opened AvpTypes
  import opened Decimal

  /** The three sets of blanks the extractors skip: `json_find_string` skips space, tab,
      newline and carriage return before a value; `json_find_int` skips space and tab; `sscanf`
      skips every C `isspace` character before a conversion. */
  datatype Blanks = StringBlanks | NumberBlanks | CSpace

  predicate IsBlank(c: char, b: Blanks) {
    match b
    case StringBlanks => c == ' ' || c == '\t' || c == '\n' || c == '\r'
    case NumberBlanks => c == ' ' || c == '\t'
    case CSpace => c == ' ' || c == '\t' || c == '\n' || c == 11 as char || c == 12 as char || c == '\r'
  }

  /** The search pattern `"key"` built by `snprintf(search, ..., "\"%s\"", key)`. */
  function Quoted(key: string): (q: string)
    ensures |q| == |key| + 2 && q[0] == '"' && q[|q| - 1] == '"'
  {
    "\"" + key + "\""
  }

  predicate OccursAt(s: string, pat: string, k: nat) {
    k + |pat| <= |s| && s[k..k + |pat|] == pat
  }

  /** `strstr` from position `from`: the first occurrence of `pat` at or after `from`. */
  function IndexOf(s: string, pat: string, from: nat): (r: Option<nat>)
    ensures r.Some? ==> from <= r.value && OccursAt(s, pat, r.value)
    ensures r.Some? ==> forall k :: from <= k < r.value ==> !OccursAt(s, pat, k)
    ensures r.None? ==> forall k :: from <= k ==> !OccursAt(s, pat, k)
    decreases |s| - from
  {
    if from + |pat| > |s| then None
    else if OccursAt(s, pat, from) then Some(from)
    else IndexOf(s, pat, from + 1)
  }

  /** `strchr` from position `from`: the first `c` at or after `from`. */
  function FindChar(s: string, c: char, from: nat): (r: Option<nat>)
    ensures r.Some? ==> from <= r.value < |s| && s[r.value] == c
    ensures r.Some? ==> forall k :: from <= k < r.value ==> s[k] != c
    ensures r.None? ==> forall k :: from <= k < |s| ==> s[k] != c
    decreases |s| - from
  {
    if from >= |s| then None
    else if s[from] == c then Some(from)
    else FindChar(s, c, from + 1)
  }

  /** The `while (*pos == ...) pos++` loops: the first position at or after `from` whose
      character is not in `blanks`, or the end of the text. */
  function SkipBlanks(s: string, from: nat, blanks: Blanks): (r: nat)
    requires from <= |s|
    ensures from <= r <= |s|
    ensures r < |s| ==> !IsBlank(s[r], blanks)
    decreases |s| - from
  {
    if from < |s| && IsBlank(s[from], blanks) then SkipBlanks(s, from + 1, blanks) else from
  }

  /** Everything the skip loop passes over is a blank. */
  lemma {:induction false} SkippedAreBlanks(s: string, from: nat, blanks: Blanks, k: nat)
    requires from <= k < |s| && k < SkipBlanks(s, from, blanks)
    ensures IsBlank(s[k], blanks)
    decreases |s| - from
  {
    if k > from {
      SkippedAreBlanks(s, from + 1, blanks, k);
    }
  }

  /** The copy loop of `json_find_string`: characters up to the next '"' or the end of the
      text, at most `limit` of them. */
  function TakeString(s: string, from: nat, limit: nat): (v: string)
    requires from <= |s|
    ensures |v| <= limit && from + |v| <= |s|
    ensures v == s[from..from + |v|]
    ensures '"' !in v
    ensures from + |v| == |s| || s[from + |v|] == '"' || |v| == limit
    decreases limit
  {
    if limit == 0 || from == |s| || s[from] == '"' then []
    else [s[from]] + TakeString(s, from + 1, limit - 1)
  }

  /** The prologue shared by `json_find_string` and `json_find_int`: `strstr` for the quoted
      key, then `strchr` for the first ':' from there. */
  function KeyColon(json: string, key: string): (r: Option<nat>)
    ensures r.Some? ==> r.value < |json| && json[r.value] == ':'
  {
    match IndexOf(json, Quoted(key), 0)
    case None => None
    case Some(p) => FindChar(json, ':', p)
  }

  /** `json_find_string` with an output buffer of `maxLen` bytes: None stands for NULL. */
  function FindString(json: string, key: string, maxLen: nat): (r: Option<string>)
    requires maxLen >= 1
    ensures r.Some? ==> |r.value| < maxLen && '"' !in r.value
  {
    match KeyColon(json, key)
    case None => None
    case Some(q) =>
      var v := SkipBlanks(json, q + 1, StringBlanks);
      if v < |json| && json[v] == '"' then Some(TakeString(json, v + 1, maxLen - 1)) else None
  }

  /** The end of the longest run of decimal digits starting at `from`. */
  function DigitEnd(s: string, from: nat): (e: nat)
    requires from <= |s|
    ensures from <= e <= |s|
    ensures e < |s| ==> !IsDigit(s[e])
    ensures forall k :: from <= k < e ==> IsDigit(s[k])
    decreases |s| - from
  {
    if from < |s| && IsDigit(s[from]) then DigitEnd(s, from + 1) else from
  }

  /** The value of the digits `s[from..to]`, read in place. */
  function DigitsValueAt(s: string, from: nat, upto: nat): nat
    requires from <= upto <= |s|
    decreases upto
  {
    if from == upto then 0 else DigitsValueAt(s, from, upto - 1) * 10 + DigitOf(s[upto - 1])
  }

  /** `strtoul` where `unsigned long` is 32 bits wide: an out-of-range magnitude saturates,
      and a '-' sign negates modulo 2^32. */
  function StrToU32(magnitude: nat, negative: bool): (v: u32)
    ensures magnitude < U32_MODULUS && !negative ==> v == magnitude
    ensures magnitude >= U32_MODULUS ==> v == U32_MODULUS - 1
  {
    if magnitude >= U32_MODULUS then U32_MODULUS - 1
    else if negative then (U32_MODULUS - magnitude) % U32_MODULUS
    else magnitude
  }

  /** `sscanf(pos, "%u", out)`: white space, an optional sign, then at least one digit. */
  function ScanUnsigned(s: string, from: nat): (r: Option<u32>)
    requires from <= |s|
    ensures r.Some? ==> exists k :: from <= k < |s| && IsDigit(s[k])
  {
    var a := SkipBlanks(s, from, CSpace);
    var signed := a < |s| && (s[a] == '-' || s[a] == '+');
    var b := if signed then a + 1 else a;
    var e := DigitEnd(s, b);
    if e == b then None
    else Some(StrToU32(DigitsValueAt(s, b, e), signed && s[a] == '-'))
  }

  /** `json_find_int`: None stands for -1. */
  function FindInt(json: string, key: string): (r: Option<u32>)
    ensures r.Some? ==> KeyColon(json, key).Some?
  {
    match KeyColon(json, key)
    case None => None
    case Some(q) => ScanUnsigned(json, SkipBlanks(json, q + 1, NumberBlanks))
  }

  /** A prefix without '"' holds no occurrence of a quoted key, so the key right after it is
      the first one. */
  lemma FirstOccurrenceAfter(prefix: string, key: string, tail: string)
    requires '"' !in prefix
    ensures IndexOf(prefix + Quoted(key) + tail, Quoted(key), 0) == Some(|prefix|)
  {
    var s := prefix + Quoted(key) + tail;
    var q := Quoted(key);
    assert s[|prefix|..|prefix| + |q|] == q;
    assert OccursAt(s, q, |prefix|);
    forall k | 0 <= k < |prefix|
      ensures !OccursAt(s, q, k)
    {
      assert s[k] == prefix[k] != '"';
      if k + |q| <= |s| {
        assert s[k..k + |q|][0] == s[k];
      }
    }
  }

  /** The first ':' after a quoted key is the one that follows it directly. */
  lemma ColonAfterKey(prefix: string, key: string, tail: string)
    requires '"' !in prefix && ':' !in key && |tail| > 0 && tail[0] == ':'
    ensures KeyColon(prefix + Quoted(key) + tail, key) == Some(|prefix| + |key| + 2)
  {
    FirstOccurrenceAfter(prefix, key, tail);
    ColonFollowsKey(prefix, key, tail);
    KeyHasNoColon(prefix, key, tail);
    FirstCharAt(prefix + Quoted(key) + tail, ':', |prefix|, |prefix| + |key| + 2);
  }

  lemma ColonFollowsKey(prefix: string, key: string, tail: string)
    requires |tail| > 0 && tail[0] == ':'
    ensures (prefix + Quoted(key) + tail)[|prefix| + |key| + 2] == ':'
  {
  }

  predicate NoCharBetween(s: string, c: char, from: nat, upto: nat) {
    forall k :: from <= k < upto && k < |s| ==> s[k] != c
  }

  lemma KeyHasNoColon(prefix: string, key: string, tail: string)
    requires ':' !in key
    ensures NoCharBetween(prefix + Quoted(key) + tail, ':', |prefix|, |prefix| + |key| + 2)
  {
    var s := prefix + Quoted(key) + tail;
    var p := |prefix|;
    var q := p + |key| + 2;
    forall k | p <= k < q
      ensures s[k] != ':'
    {
      assert s[p..q] == Quoted(key);
      assert s[k] == s[p..q][k - p];
      QuotedHasNoColon(key, k - p);
    }
  }

  lemma FirstCharAt(s: string, c: char, from: nat, q: nat)
    requires from <= q < |s| && s[q] == c
    requires NoCharBetween(s, c, from, q)
    ensures FindChar(s, c, from) == Some(q)
  {
  }

  lemma QuotedHasNoColon(key: string, j: nat)
    requires ':' !in key && j < |key| + 2
    ensures Quoted(key)[j] != ':'
  {
    if 0 < j < |key| + 1 {
      assert Quoted(key)[j] == key[j - 1];
    }
  }

  /** A field written as `"key":"value"` after text without '"' is found, and its value is
      read back cut to the buffer (`maxLen - 1` characters) without any error. */
  lemma FindStringField(prefix: string, key: string, value: string, rest: string, maxLen: nat)
    requires maxLen >= 1
    requires '"' !in prefix && ':' !in key && '"' !in value
    ensures FindString(prefix + Quoted(key) + ":" + Quoted(value) + rest, key, maxLen)
      == Some(if |value| < maxLen then value else value[..maxLen - 1])
  {
    var head := prefix + Quoted(key);
    var tail := ":" + Quoted(value) + rest;
    var s := head + tail;
    var q := |prefix| + |key| + 2;
    assert s == prefix + Quoted(key) + ":" + Quoted(value) + rest;
    assert KeyColon(s, key) == Some(q) by {
      ColonAfterKey(prefix, key, tail);
    }
    assert q + 2 + |value| < |s| && s[q + 1] == '"' && s[q + 2..q + 2 + |value|] == value
      && s[q + 2 + |value|] == '"' by {
      StringFieldLayout(head, value, rest);
    }
    StringField(s, key, q, value, maxLen);
  }

  /** The string after a located colon is the quoted text written there, cut to the buffer. */
  lemma StringField(s: string, key: string, q: nat, value: string, maxLen: nat)
    requires maxLen >= 1 && '"' !in value
    requires KeyColon(s, key) == Some(q)
    requires q + 2 + |value| < |s| && s[q + 1] == '"' && s[q + 2..q + 2 + |value|] == value
    requires s[q + 2 + |value|] == '"'
    ensures FindString(s, key, maxLen) == Some(if |value| < maxLen then value else value[..maxLen - 1])
  {
    StringAfterColon(s, key, q, maxLen);
    ValueTaken(s, q + 2, value, maxLen - 1);
  }

  /** Where the quotes of `:"value"` fall once the key is written. */
  lemma StringFieldLayout(head: string, value: string, rest: string)
    ensures var s := head + (":" + Quoted(value) + rest);
      && |head| + 2 + |value| < |s|
      && s[|head|] == ':' && s[|head| + 1] == '"'
      && s[|head| + 2..|head| + 2 + |value|] == value
      && s[|head| + 2 + |value|] == '"'
  {
    var s := head + (":" + Quoted(value) + rest);
    assert s[|head| + 2..|head| + 2 + |value|] == Quoted(value)[1..|value| + 1];
  }

  /** Once the key and its colon are located, a '"' right after the colon starts the value. */
  lemma StringAfterColon(s: string, key: string, q: nat, maxLen: nat)
    requires maxLen >= 1
    requires KeyColon(s, key) == Some(q)
    requires q + 1 < |s| && s[q + 1] == '"'
    ensures FindString(s, key, maxLen) == Some(TakeString(s, q + 2, maxLen - 1))
  {
    assert SkipBlanks(s, q + 1, StringBlanks) == q + 1;
  }

  /** The copy loop stops at the closing quote, or earlier when the buffer is full. */
  lemma {:induction false} ValueTaken(s: string, from: nat, value: string, limit: nat)
    requires from + |value| < |s|
    requires s[from..from + |value|] == value && s[from + |value|] == '"' && '"' !in value
    ensures TakeString(s, from, limit) == if |value| <= limit then value else value[..limit]
    decreases limit
  {
    if limit > 0 && |value| > 0 {
      assert s[from] == value[0];
      assert s[from + 1..from + 1 + |value[1..]|] == value[1..];
      ValueTaken(s, from + 1, value[1..], limit - 1);
      if |value| > limit {
        assert value[..limit] == [value[0]] + value[1..][..limit - 1];
      } else {
        assert value == [value[0]] + value[1..];
      }
    }
  }

  /** Once the key's colon is located, a number written there with `%u` (and not followed
      by another digit) is read back exactly, provided it fits 32 bits. */
  lemma FindIntAfterColon(s: string, key: string, q: nat, n: nat)
    requires n < U32_MODULUS
    requires KeyColon(s, key) == Some(q)
    requires q + 1 + |DecimalString(n)| <= |s| && s[q + 1..q + 1 + |DecimalString(n)|] == DecimalString(n)
    requires q + 1 + |DecimalString(n)| == |s| || !IsDigit(s[q + 1 + |DecimalString(n)|])
    ensures FindInt(s, key) == Some(n)
  {
    DigitsValueOfDecimalString(n);
    ScanDigits(s, q + 1, DecimalString(n));
    IntAfterColon(s, key, q);
  }

  lemma IntAfterColon(s: string, key: string, q: nat)
    requires KeyColon(s, key) == Some(q)
    requires SkipBlanks(s, q + 1, NumberBlanks) == q + 1
    ensures FindInt(s, key) == ScanUnsigned(s, q + 1)
  {
  }

  /** `%u` at a run of digits that is not followed by another digit reads that run. */
  lemma ScanDigits(s: string, from: nat, digits: string)
    requires from + |digits| <= |s| && |digits| > 0
    requires s[from..from + |digits|] == digits
    requires AllDigits(digits)
    requires from + |digits| == |s| || !IsDigit(s[from + |digits|])
    requires DigitsValue(digits) < U32_MODULUS
    ensures SkipBlanks(s, from, NumberBlanks) == from
    ensures ScanUnsigned(s, from) == Some(DigitsValue(digits))
  {
    AllDigitsAt(digits, 0);
    assert s[from] == digits[0];
    assert IsDigit(s[from]);
    assert SkipBlanks(s, from, NumberBlanks) == from;
    assert SkipBlanks(s, from, CSpace) == from;
    DigitEndOf(s, from, digits);
    DigitsValueAtOf(s, from, digits);
  }

  /** The run of digits ends where the written digits end. */
  lemma {:induction false} DigitEndOf(s: string, from: nat, digits: string)
    requires from + |digits| <= |s|
    requires s[from..from + |digits|] == digits
    requires AllDigits(digits)
    requires from + |digits| == |s| || !IsDigit(s[from + |digits|])
    ensures DigitEnd(s, from) == from + |digits|
    decreases |digits|
  {
    if |digits| > 0 {
      AllDigitsAt(digits, 0);
      AllDigitsTail(digits);
      assert s[from] == digits[0];
      assert s[from + 1..from + 1 + |digits[1..]|] == digits[1..];
      DigitEndOf(s, from + 1, digits[1..]);
    }
  }

  /** Reading digits in place gives the value of the digit string. */
  lemma {:induction false} DigitsValueAtOf(s: string, from: nat, digits: string)
    requires from + |digits| <= |s|
    requires s[from..from + |digits|] == digits
    ensures DigitsValueAt(s, from, from + |digits|) == DigitsValue(digits)
    decreases |digits|
  {
    if |digits| > 0 {
      var front := digits[..|digits| - 1];
      assert s[from..from + |front|] == front;
      DigitsValueAtOf(s, from, front);
      assert s[from + |digits| - 1] == digits[|digits| - 1];
    }
  }
}
