/** `avp_cmd_is_avp` (avp/avp_cmd.c): whether a line from the USB console is an AVP command.
    The input is the text before its terminator. */
module Cmd {

  /** The characters the classifier skips. */
  predicate IsSpace(c: char) {
    c == ' ' || c == '\t' || c == '\r' || c == '\n'
  }

  /** The classification: leading spaces, tabs, CR and LF are skipped and the first other
      character must be `{`. */
  function StartsObject(data: string): (r: bool)
    ensures r ==> '{' in data
  {
    if |data| == 0 then false
    else if IsSpace(data[0]) then StartsObject(data[1..])
    else data[0] == '{'
  }

  /** `avp_cmd_is_avp`: the character scan over the leading whitespace. */
  method IsAvp(data: string) returns (r: bool)
    ensures r == StartsObject(data)
  {
    var i := 0;
    while i < |data| && IsSpace(data[i])
      invariant 0 <= i <= |data|
      invariant StartsObject(data[i..]) == StartsObject(data)
    {
      i := i + 1;
    }
    r := i < |data| && data[i] == '{';
  }

  /** A line is an AVP command exactly when some `{` is preceded only by whitespace. */
  lemma {:induction false} StartsObjectIff(data: string)
    ensures StartsObject(data) <==>
      exists k :: 0 <= k < |data| && data[k] == '{' && forall j :: 0 <= j < k ==> IsSpace(data[j])
  {
    if |data| > 0 {
      StartsObjectIff(data[1..]);
      if IsSpace(data[0]) {
        if StartsObject(data) {
          var k :| 0 <= k < |data[1..]| && data[1..][k] == '{' && forall j :: 0 <= j < k ==> IsSpace(data[1..][j]);
          assert data[k + 1] == '{';
          assert forall j :: 0 <= j < k + 1 ==> IsSpace(data[j]) by {
            forall j | 0 <= j < k + 1
              ensures IsSpace(data[j])
            {
              if j > 0 {
                assert data[j] == data[1..][j - 1];
              }
            }
          }
        }
        if exists k :: 0 <= k < |data| && data[k] == '{' && forall j :: 0 <= j < k ==> IsSpace(data[j]) {
          var k :| 0 <= k < |data| && data[k] == '{' && forall j :: 0 <= j < k ==> IsSpace(data[j]);
          assert k > 0;
          assert data[1..][k - 1] == '{';
        }
      } else {
        if exists k :: 0 <= k < |data| && data[k] == '{' && forall j :: 0 <= j < k ==> IsSpace(data[j]) {
          var k :| 0 <= k < |data| && data[k] == '{' && forall j :: 0 <= j < k ==> IsSpace(data[j]);
          assert k == 0;
        }
      }
    }
  }

  /** Whitespace in front of a line does not change its classification. */
  lemma {:induction false} PrependWhitespace(ws: string, data: string)
    requires forall i :: 0 <= i < |ws| ==> IsSpace(ws[i])
    ensures StartsObject(ws + data) == StartsObject(data)
  {
    if |ws| > 0 {
      assert (ws + data)[0] == ws[0];
      assert (ws + data)[1..] == ws[1..] + data;
      assert forall i :: 0 <= i < |ws[1..]| ==> ws[1..][i] == ws[i + 1];
      PrependWhitespace(ws[1..], data);
    } else {
      assert ws + data == data;
    }
  }

  /** An empty or all-whitespace line is not an AVP command. */
  lemma {:induction false} BlankIsNotAvp(data: string)
    requires forall i :: 0 <= i < |data| ==> IsSpace(data[i])
    ensures !StartsObject(data)
  {
    if |data| > 0 {
      assert forall i :: 0 <= i < |data[1..]| ==> data[1..][i] == data[i + 1];
      BlankIsNotAvp(data[1..]);
    }
  }

  /** Only the first character after the whitespace is inspected: any text behind a `{`,
      valid JSON or not, is classified as an AVP command. */
  lemma BraceIsEnough(ws: string, rest: string)
    requires forall i :: 0 <= i < |ws| ==> IsSpace(ws[i])
    ensures StartsObject(ws + "{" + rest)
  {
    assert ws + "{" + rest == ws + ("{" + rest);
    PrependWhitespace(ws, "{" + rest);
  }
}
