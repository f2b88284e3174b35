/**
  The byte frame `format_str` builds around a payload:
  a Control Sequence Introducer `ESC [` (section 5.4 of ECMA-48), the
  colour parameter, the final byte `m` of Select Graphic Rendition
  (section 8.3.117), the payload, and the reset sequence `ESC [ 0 m`.
 */
module Frame {
  import opened Wrappers
  import opened Utf8

  const ESC: byte := 0x1B
  const LEFT_BRACKET: byte := 0x5B  // '['
  const FINAL_M: byte := 0x6D       // 'm', the final byte of SGR
  const DIGIT_ZERO: byte := 0x30    // '0'

  /** The Control Sequence Introducer in its 7-bit form. */
  const CSI: seq<byte> := [ESC, LEFT_BRACKET]

  /** SGR with parameter 0: back to the default rendition. */
  const RESET: seq<byte> := [ESC, LEFT_BRACKET, DIGIT_ZERO, FINAL_M]

  /** `format_str(payload, code)`: the payload framed by the opening
      sequence for `code` and the reset sequence. The empty payload still
      gets the whole frame; an empty code gives the opening `ESC [ m`. */
  function FormatStr(payload: seq<byte>, code: seq<byte>): (r: seq<byte>)
    ensures |r| == |payload| + |code| + 7
    ensures r[..2] == CSI
    ensures r[2..2 + |code|] == code
    ensures r[2 + |code|] == FINAL_M
    ensures r[3 + |code|..|r| - 4] == payload
    ensures r[|r| - 4..] == RESET
  {
    CSI + (code + [FINAL_M]) + payload + RESET
  }

  /** A frame taken apart: the parameter bytes and the payload. */
  datatype Parts = Parts(code: seq<byte>, payload: seq<byte>)

  /** The first position at or after `i` holding the final byte `m`,
      or `|buf|` when there is none. */
  function FindFinal(buf: seq<byte>, i: nat): (k: nat)
    requires i <= |buf|
    ensures i <= k <= |buf|
    ensures k < |buf| ==> buf[k] == FINAL_M
    ensures FINAL_M !in buf[i..k]
    decreases |buf| - i
  {
    if i == |buf| then i
    else if buf[i] == FINAL_M then i
    else
      var k := FindFinal(buf, i + 1);
      assert buf[i..k] == [buf[i]] + buf[i + 1..k];
      k
  }

  /** Reads a buffer back as a frame: it must open with `ESC [`, end with
      the reset sequence, and have a final `m` before that reset; the
      parameter runs up to the first `m`. */
  function Parse(buf: seq<byte>): (r: Option<Parts>)
  {
    if |buf| < 7 || buf[..2] != CSI || buf[|buf| - 4..] != RESET then None
    else
      var k := FindFinal(buf, 2);
      if k + 5 <= |buf| then Some(Parts(buf[2..k], buf[k + 1..|buf| - 4]))
      else None
  }

  /** Dropping the `3 + |code|` opening bytes and the 4 reset bytes of a
      frame gives the payload back, and the length is fixed by the parts. */
  lemma PayloadRecovery(payload: seq<byte>, code: seq<byte>)
    ensures FormatStr(payload, code)[3 + |code|..|FormatStr(payload, code)| - 4] == payload
    ensures |FormatStr(payload, code)| - (|code| + 7) == |payload|
  {
  }

  /** The first `m` of a frame whose parameter holds no `m` is the one
      that closes the opening sequence. */
  lemma FindFinalInFrame(payload: seq<byte>, code: seq<byte>)
    requires FINAL_M !in code
    ensures FindFinal(FormatStr(payload, code), 2) == 2 + |code|
  {
    var buf := FormatStr(payload, code);
    var k := FindFinal(buf, 2);
    assert buf[2..2 + |code|] == code;
  }

  /** Round trip: a frame built from a parameter without `m` parses back
      into the same parameter and payload. */
  lemma ParseFormatStr(payload: seq<byte>, code: seq<byte>)
    requires FINAL_M !in code
    ensures Parse(FormatStr(payload, code)) == Some(Parts(code, payload))
  {
    FindFinalInFrame(payload, code);
  }

  /** Round trip the other way: whatever parses is exactly the frame of its
      parts, and its parameter holds no `m`. */
  lemma FormatStrParse(buf: seq<byte>)
    requires Parse(buf).Some?
    ensures FINAL_M !in Parse(buf).value.code
    ensures FormatStr(Parse(buf).value.payload, Parse(buf).value.code) == buf
  {
    var k := FindFinal(buf, 2);
    var p := Parse(buf).value;
    assert buf == buf[..2] + buf[2..k] + [buf[k]] + buf[k + 1..|buf| - 4] + buf[|buf| - 4..];
  }

  /** Both directions together: `buf` parses into `(code, payload)` exactly
      when it is the frame of `payload` under a parameter without `m`. */
  lemma ParseIff(buf: seq<byte>, code: seq<byte>, payload: seq<byte>)
    ensures Parse(buf) == Some(Parts(code, payload)) <==>
            buf == FormatStr(payload, code) && FINAL_M !in code
  {
    if Parse(buf) == Some(Parts(code, payload)) {
      FormatStrParse(buf);
    }
    if buf == FormatStr(payload, code) && FINAL_M !in code {
      ParseFormatStr(payload, code);
    }
  }

  /** Removes every control sequence `ESC [ ... m` from `buf`, keeping all
      other bytes in order. An `ESC [` with no later `m` is kept as it is. */
  function Strip(buf: seq<byte>): (r: seq<byte>)
    ensures |r| <= |buf|
    ensures ESC !in buf ==> r == buf
    decreases |buf|
  {
    if |buf| == 0 then []
    else if |buf| >= 2 && buf[0] == ESC && buf[1] == LEFT_BRACKET then
      var k := FindFinal(buf, 2);
      if k < |buf| then Strip(buf[k + 1..]) else buf
    else
      [buf[0]] + Strip(buf[1..])
  }

  /** Stripping passes over a prefix that holds no escape byte unchanged. */
  lemma {:induction false} StripPlainPrefix(plain: seq<byte>, rest: seq<byte>)
    requires ESC !in plain
    ensures Strip(plain + rest) == plain + Strip(rest)
    decreases |plain|
  {
    if plain != [] {
      var buf := plain + rest;
      assert buf[0] == plain[0] && plain[0] != ESC;
      assert buf[1..] == plain[1..] + rest;
      calc {
        Strip(buf);
        [plain[0]] + Strip(plain[1..] + rest);
        { StripPlainPrefix(plain[1..], rest); }
        [plain[0]] + (plain[1..] + Strip(rest));
        { assert plain == [plain[0]] + plain[1..]; }
        plain + Strip(rest);
      }
    } else {
      assert plain + rest == rest;
    }
  }

  /** Stripping the control sequences from a frame whose payload holds no
      escape byte, and whose parameter holds no `m`, recovers the payload. */
  lemma StripFormatStr(payload: seq<byte>, code: seq<byte>)
    requires FINAL_M !in code
    requires ESC !in payload
    ensures Strip(FormatStr(payload, code)) == payload
  {
    var buf := FormatStr(payload, code);
    FindFinalInFrame(payload, code);
    assert buf[3 + |code|..] == payload + RESET;
    StripPlainPrefix(payload, RESET);
    assert FindFinal(RESET, 2) == 3;
    assert RESET[4..] == [];
    assert payload + [] == payload;
  }
}
