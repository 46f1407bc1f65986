/** The daemon's line protocol (src/msg.rs): one received line becomes one `Msg`. */
module Msg {
  import opened Text

  const NonClosedJson := "Non closed JSON object"
  const ExpectedMessage := "Expected a valid client message"

  /** A decoded client message; strings are slices of the received line. */
  datatype Msg =
    | Empty
    | Open(traceId: string)
    | EmitTef(path: string)
    | Add(json: string)
    | Die
    | DieWhenIdle
    | ParseError(msg: string)

  /** Non-empty, first character '{' and last character '}'. As '{' and '}' are ASCII, the first
      and last bytes of the UTF-8 encoding are these characters exactly when the first and last
      characters are. */
  predicate IsBraced(t: string) {
    |t| > 0 && t[0] == '{' && t[|t| - 1] == '}'
  }

  /** The text after a keyword of a trimmed line is never blank: the line does not end with the
      keyword's trailing space. */
  lemma RestNotBlank(t: string, k: nat)
    requires Trimmed(t) && 0 < k <= |t| && IsSpace(t[k - 1])
    ensures Trim(t[k..]) != []
  {
    TrimEmptyIffAllSpace(t[k..]);
    assert t[k..][|t| - 1 - k] == t[|t| - 1];
  }

  /** What the keyword tests look at: each keyword fixes the first character, and the two that
      begin with 'D' differ in length. */
  lemma KeywordHeads(t: string)
    ensures StartsWith(t, "OPEN ") ==> |t| >= 5 && t[0] == 'O'
    ensures t == "DIE" ==> t[0] == 'D' && |t| == 3
    ensures t == "DIE_WHEN_IDLE" ==> t[0] == 'D' && |t| == 13
    ensures StartsWith(t, "EMIT_TEF ") ==> |t| >= 9 && t[0] == 'E'
  {
    if StartsWith(t, "OPEN ") { assert t[0] == t[..5][0]; }
    if StartsWith(t, "EMIT_TEF ") { assert t[0] == t[..9][0]; }
  }

  /** `decode_line`: trim, then try each form in a fixed priority order. */
  function DecodeLine(line: string): (m: Msg)
    ensures m.Open? ==> m.traceId != [] && Trimmed(m.traceId)
    ensures m.EmitTef? ==> m.path != [] && Trimmed(m.path)
    ensures m.Add? ==> IsBraced(m.json) && m.json == Trim(line)
    ensures m.ParseError? ==> m.msg == NonClosedJson || m.msg == ExpectedMessage
  {
    var t := Trim(line);
    if t == [] then Empty
    else if StartsWith(t, "OPEN ") then
      RestNotBlank(t, 5);
      Open(Trim(t[5..]))
    else if t == "DIE" then Die
    else if t == "DIE_WHEN_IDLE" then DieWhenIdle
    else if StartsWith(t, "EMIT_TEF ") then
      RestNotBlank(t, 9);
      EmitTef(Trim(t[9..]))
    else if t[0] == '{' then
      if t[|t| - 1] != '}' then ParseError(NonClosedJson) else Add(t)
    else ParseError(ExpectedMessage)
  }

  lemma DecodeEmptyIffBlank(line: string)
    ensures DecodeLine(line) == Empty <==> AllSpace(line)
  {
    TrimEmptyIffAllSpace(line);
  }

  /** `OPEN ` wins over every later form, braces included, and binds the trimmed remainder. */
  lemma DecodeOpenIff(line: string)
    ensures DecodeLine(line).Open? <==> StartsWith(Trim(line), "OPEN ")
    ensures DecodeLine(line).Open? ==> DecodeLine(line).traceId == Trim(Trim(line)[5..])
  {
  }

  /** A bare `OPEN` (with or without trailing blanks) is not an open request. */
  lemma DecodeBareOpen(line: string)
    requires Trim(line) == "OPEN"
    ensures DecodeLine(line) == ParseError(ExpectedMessage)
  {
  }

  lemma DecodeDieIff(line: string)
    ensures DecodeLine(line) == Die <==> Trim(line) == "DIE"
    ensures DecodeLine(line) == DieWhenIdle <==> Trim(line) == "DIE_WHEN_IDLE"
  {
    var t := Trim(line);
    KeywordHeads(t);
    if t == "DIE" || t == "DIE_WHEN_IDLE" {
      assert t != [] && !StartsWith(t, "OPEN ");
    }
  }

  lemma DecodeEmitTefIff(line: string)
    ensures DecodeLine(line).EmitTef? <==> StartsWith(Trim(line), "EMIT_TEF ")
    ensures DecodeLine(line).EmitTef? ==> DecodeLine(line).path == Trim(Trim(line)[9..])
  {
    var t := Trim(line);
    KeywordHeads(t);
    if StartsWith(t, "EMIT_TEF ") {
      assert t != [] && !StartsWith(t, "OPEN ") && t != "DIE" && t != "DIE_WHEN_IDLE";
    }
  }

  /** A record is accepted exactly when the trimmed line is brace-delimited; a line that opens a
      brace without closing it is the "Non closed JSON object" error. */
  lemma DecodeAddIff(line: string)
    ensures DecodeLine(line).Add? <==> IsBraced(Trim(line))
    ensures DecodeLine(line) == ParseError(NonClosedJson)
        <==> (Trim(line) != [] && Trim(line)[0] == '{' && !IsBraced(Trim(line)))
  {
    KeywordHeads(Trim(line));
  }

  /** Every line that has none of the recognised shapes is the generic parse error. */
  lemma DecodeOtherwise(line: string)
    ensures DecodeLine(line) == ParseError(ExpectedMessage)
        <==> (var t := Trim(line);
              t != [] && !StartsWith(t, "OPEN ") && t != "DIE" && t != "DIE_WHEN_IDLE"
              && !StartsWith(t, "EMIT_TEF ") && t[0] != '{')
  {
  }

  // ---------------------------------------------------------------------------------------
  // The client side of the protocol, as a partner to the decoder.

  /** Messages a client can send; a parse error is not something one sends. */
  predicate WellFormed(m: Msg) {
    match m
    case Open(id) => id != [] && Trimmed(id) && NewlineFree(id)
    case EmitTef(p) => p != [] && Trimmed(p) && NewlineFree(p)
    case Add(j) => IsBraced(j) && NewlineFree(j)
    case ParseError(_) => false
    case _ => true
  }

  /** The line a client writes for `m` (without its newline). */
  function Encode(m: Msg): (line: string)
    requires WellFormed(m)
    ensures Trimmed(line) && NewlineFree(line)
  {
    match m
    case Empty => ""
    case Open(id) => "OPEN " + id
    case EmitTef(p) => "EMIT_TEF " + p
    case Add(j) => j
    case Die => "DIE"
    case DieWhenIdle => "DIE_WHEN_IDLE"
  }

  /** Everything the decoder yields from a line `read_line` returns, except a parse error, is a
      well-formed message. */
  lemma DecodedWellFormed(line: string)
    requires OneLine(line)
    ensures !DecodeLine(line).ParseError? ==> WellFormed(DecodeLine(line))
  {
    var t := Trim(line);
    TrimInside(line);
    if |t| >= 9 {
      TrimInside(t[9..]);
    }
    if |t| >= 5 {
      TrimInside(t[5..]);
    }
  }

  /** Decoding inverts encoding, whatever blanks surround the line (the '\n' that ends it included). */
  lemma DecodeEncode(m: Msg, pre: string, post: string)
    requires WellFormed(m) && AllSpace(pre) && AllSpace(post)
    ensures DecodeLine(pre + Encode(m) + post) == m
  {
    var e := Encode(m);
    TrimPadded(pre, e, post);
    KeywordHeads(e);
    match m
    case Empty =>
      assert e == [];
    case Open(id) =>
      DecodeEncodedArgument(pre + e + post, "OPEN ", id);
    case EmitTef(p) =>
      assert e != [] && !StartsWith(e, "OPEN ") && e != "DIE" && e != "DIE_WHEN_IDLE";
      DecodeEncodedArgument(pre + e + post, "EMIT_TEF ", p);
    case Add(j) =>
      assert e != [] && !StartsWith(e, "OPEN ") && !StartsWith(e, "EMIT_TEF ") && e[0] == '{';
    case Die =>
      assert e != [] && !StartsWith(e, "OPEN ");
    case DieWhenIdle =>
      assert e != [] && !StartsWith(e, "OPEN ");
  }

  /** The argument after a keyword comes back unchanged when it is already trimmed. */
  lemma DecodeEncodedArgument(line: string, keyword: string, arg: string)
    requires Trim(line) == keyword + arg && Trimmed(arg)
    ensures StartsWith(Trim(line), keyword) && Trim(Trim(line)[|keyword|..]) == arg
  {
    var t := Trim(line);
    assert t[..|keyword|] == keyword;
    assert t[|keyword|..] == arg;
    assert [] + arg + [] == arg;
    TrimPadded([], arg, []);
  }
}
