/** The JSON-lines to Trace Event Format exporter (src/utils.rs). The reader is the sequence of
    lines `read_line` returns; the writer is the output string. */
module Utils {
  import opened Text
  import Msg

  /** A line `emit_tef` skips without counting it. */
  predicate IsBlank(line: string) {
    Trim(line) == []
  }

  /** A line `emit_tef` copies into the array: trimmed, it starts with '{' and ends with '}'. */
  predicate IsRecord(line: string) {
    Msg.IsBraced(Trim(line))
  }

  /** The trimmed record lines, in input order. */
  function Records(lines: seq<string>): (r: seq<string>)
    ensures |r| <= |lines|
    ensures forall k :: 0 <= k < |r| ==> Msg.IsBraced(r[k]) && Trimmed(r[k])
  {
    if lines == [] then []
    else
      var init, last := lines[..|lines| - 1], lines[|lines| - 1];
      Records(init) + (if IsRecord(last) then [Trim(last)] else [])
  }

  /** Number of non-blank lines that are not records: the `bad_json` counter. */
  function BadCount(lines: seq<string>): nat {
    if lines == [] then 0
    else
      var last := lines[|lines| - 1];
      BadCount(lines[..|lines| - 1]) + (if !IsBlank(last) && !IsRecord(last) then 1 else 0)
  }

  function BlankCount(lines: seq<string>): nat {
    if lines == [] then 0
    else BlankCount(lines[..|lines| - 1]) + (if IsBlank(lines[|lines| - 1]) then 1 else 0)
  }

  /** The records separated by ",\n". */
  function Join(recs: seq<string>): string {
    if |recs| == 0 then ""
    else if |recs| == 1 then recs[0]
    else Join(recs[..|recs| - 1]) + ",\n" + recs[|recs| - 1]
  }

  /** The document `emit_tef` writes for these records. The opening bracket is written only
      together with the first record, so with no record the document is "]\n". */
  function Frame(recs: seq<string>): string {
    if recs == [] then "]\n" else "[" + Join(recs) + "]\n"
  }

  /** What `emit_tef` writes for the lines of its reader. */
  function Emitted(lines: seq<string>): string {
    Frame(Records(lines))
  }

  /** One more line read: the records and the counter grow by what that line contributes. */
  lemma ReadOneMore(lines: seq<string>, i: nat)
    requires i < |lines|
    ensures var t := Trim(lines[i]);
      Records(lines[..i + 1]) == Records(lines[..i]) + (if Msg.IsBraced(t) then [t] else [])
    ensures var t := Trim(lines[i]);
      BadCount(lines[..i + 1]) == BadCount(lines[..i]) + (if t != [] && !Msg.IsBraced(t) then 1 else 0)
  {
    assert lines[..i + 1][..i] == lines[..i];
  }

  /** Separators go between records only. */
  lemma JoinSnoc(recs: seq<string>, r: string)
    requires recs != []
    ensures Join(recs + [r]) == Join(recs) + ",\n" + r
  {
    assert (recs + [r])[..|recs|] == recs;
  }

  /** What `emit_tef` has written once it has seen these records: nothing before the first one. */
  function Written(recs: seq<string>): string {
    if recs == [] then "" else "[" + Join(recs)
  }

  lemma WrittenSnoc(recs: seq<string>, r: string)
    ensures Written(recs + [r]) == Written(recs) + (if recs == [] then "[" else ",\n") + r
  {
    if recs == [] {
      assert recs + [r] == [r];
    } else {
      JoinSnoc(recs, r);
    }
  }

  /** What is written grows, line by line, by what `emit_tef` writes for that line. */
  lemma WrittenOneMore(lines: seq<string>, i: nat)
    requires i < |lines|
    ensures var t, before := Trim(lines[i]), Records(lines[..i]);
      Written(Records(lines[..i + 1]))
      == if !Msg.IsBraced(t) then Written(before)
         else if before == [] then Written(before) + "[" + t
         else Written(before) + ",\n" + t
  {
    ReadOneMore(lines, i);
    var t, before := Trim(lines[i]), Records(lines[..i]);
    if Msg.IsBraced(t) {
      WrittenSnoc(before, t);
    } else {
      assert before + [] == before;
    }
  }

  /** `emit_tef`: one pass over the lines with the `first` flag and the `bad_json` counter. */
  method EmitTef(lines: seq<string>) returns (out: string, badJson: nat)
    ensures out == Emitted(lines)
    ensures badJson == BadCount(lines)
  {
    badJson := 0;
    var first := true;
    out := "";
    var i := 0;
    while i < |lines|
      invariant 0 <= i <= |lines|
      invariant first <==> Records(lines[..i]) == []
      invariant out == Written(Records(lines[..i]))
      invariant badJson == BadCount(lines[..i])
    {
      var json := lines[i];
      ReadOneMore(lines, i);
      WrittenOneMore(lines, i);
      i := i + 1;
      var trimmed := Trim(json);
      if trimmed == [] {
        continue;
      } else if trimmed[0] != '{' || trimmed[|trimmed| - 1] != '}' {
        badJson := badJson + 1;
        continue;
      }
      if first {
        out := out + "[";
        first := false;
      } else {
        out := out + ",\n";
      }
      out := out + Trim(json);
    }
    assert lines[..i] == lines;
    out := out + "]\n";
  }

  /** No record is found exactly when no line is a record. */
  lemma {:induction false} NoRecordsIff(lines: seq<string>)
    ensures Records(lines) == [] <==> forall k :: 0 <= k < |lines| ==> !IsRecord(lines[k])
  {
    if lines != [] {
      var n := |lines| - 1;
      NoRecordsIff(lines[..n]);
      ReadOneMore(lines, n);
      assert lines[..n + 1] == lines;
      if Records(lines) == [] {
        forall k | 0 <= k < |lines| ensures !IsRecord(lines[k]) {
          if k < n { assert lines[..n][k] == lines[k]; }
        }
      } else if !IsRecord(lines[n]) {
        var k :| 0 <= k < n && IsRecord(lines[..n][k]);
        assert lines[k] == lines[..n][k];
      }
    }
  }

  /** The output is always closed by "]\n", and opened by '[' exactly when a record was found. */
  lemma EmittedShape(lines: seq<string>)
    ensures var doc := Emitted(lines);
      |doc| >= 2 && doc[|doc| - 2..] == "]\n"
      && (doc[0] == '[' <==> exists k :: 0 <= k < |lines| && IsRecord(lines[k]))
  {
    NoRecordsIff(lines);
    var recs := Records(lines);
    var doc := Emitted(lines);
    if recs != [] {
      assert doc == "[" + Join(recs) + "]\n";
      assert doc[|doc| - 2..] == "]\n";
    }
  }

  /** With no record at all, and in particular on an empty source, only "]\n" is written: no
      opening bracket, so not a JSON array. */
  lemma NoRecordsOnlyClose(lines: seq<string>)
    ensures Emitted(lines) == "]\n" <==> forall k :: 0 <= k < |lines| ==> !IsRecord(lines[k])
  {
    NoRecordsIff(lines);
    var recs := Records(lines);
    if recs != [] {
      assert Emitted(lines)[0] == '[';
    }
  }

  /** Reading more lines adds their records after the earlier ones. */
  lemma {:induction false} RecordsAppend(a: seq<string>, b: seq<string>)
    ensures Records(a + b) == Records(a) + Records(b)
    decreases |b|
  {
    if b == [] {
      assert a + b == a;
    } else {
      var init, last := b[..|b| - 1], b[|b| - 1];
      assert (a + b)[..|a + b| - 1] == a + init;
      RecordsAppend(a, init);
    }
  }

  /** A line that is not a record contributes nothing, wherever it stands. */
  lemma OmitInvalid(a: seq<string>, line: string, b: seq<string>)
    requires !IsRecord(line)
    ensures Records(a + [line] + b) == Records(a + b)
  {
    RecordsAppend(a + [line], b);
    RecordsAppend(a, [line]);
    RecordsAppend(a, b);
    assert Records([line]) == Records([line][..0]) + [];
  }

  /** When every line is a record, the array holds each of them, trimmed, in order. */
  lemma {:induction false} AllRecords(lines: seq<string>)
    requires forall k :: 0 <= k < |lines| ==> IsRecord(lines[k])
    ensures |Records(lines)| == |lines|
    ensures forall k :: 0 <= k < |lines| ==> Records(lines)[k] == Trim(lines[k])
  {
    if lines != [] {
      var init := lines[..|lines| - 1];
      AllRecords(init);
    }
  }

  /** Every line is exactly one of blank, bad, or record. */
  lemma {:induction false} LineAccounting(lines: seq<string>)
    ensures |Records(lines)| + BadCount(lines) + BlankCount(lines) == |lines|
  {
    if lines != [] {
      LineAccounting(lines[..|lines| - 1]);
    }
  }

  /** The exporter's validity test agrees with the decoder: a line is copied into the array
      exactly when the daemon would have accepted it as a record, with the same text. */
  lemma RecordIffAdd(line: string)
    ensures IsRecord(line) <==> Msg.DecodeLine(line).Add?
    ensures IsRecord(line) ==> Msg.DecodeLine(line).json == Trim(line)
  {
    Msg.DecodeAddIff(line);
  }

  // ---------------------------------------------------------------------------------------
  // The document line by line.

  /** Line `i` of the document for `n` records: the record, '[' before the first, ",\n" after
      all but the last, `close` after the last. */
  function DocLine(recs: seq<string>, i: nat, close: string): string
    requires i < |recs|
  {
    (if i == 0 then "[" else "") + recs[i] + (if i == |recs| - 1 then close else ",\n")
  }

  /** A newline-free text with one more non-newline character is still newline-free. */
  lemma NewlineFreeSnoc(r: string, c: char)
    requires NewlineFree(r) && c != '\n'
    ensures NewlineFree(r + [c])
  {
    var t := r + [c];
    forall j | 0 <= j < |t| ensures t[j] != '\n' {
      if j < |r| { assert t[j] == r[j]; }
    }
  }

  /** One record: the document is the single line '[' record close. */
  lemma SplitFramedOne(r: string, c: char)
    requires NewlineFree(r) && c != '\n'
    ensures SplitLines("[" + Join([r]) + [c, '\n']) == [DocLine([r], 0, [c, '\n'])]
  {
    NewlineFreeSnoc(r, c);
    var t := "[" + (r + [c]);
    assert NewlineFree(t) by {
      forall j | 0 <= j < |t| ensures t[j] != '\n' {
        if j > 0 { assert t[j] == (r + [c])[j - 1]; }
      }
    }
    SplitOneLine(t);
    assert "[" + Join([r]) + [c, '\n'] == t + "\n";
  }

  /** One more record: the earlier lines stay, the last one now ends with ",\n", and the new
      record makes one more line. */
  lemma SplitFramedStep(init: seq<string>, r: string, c: char)
    requires init != [] && NewlineFree(r) && c != '\n'
    ensures SplitLines("[" + Join(init + [r]) + [c, '\n'])
      == SplitLines("[" + Join(init) + [',', '\n']) + [r + [c, '\n']]
  {
    var tail := r + [c];
    NewlineFreeSnoc(r, c);
    SplitOneLine(tail);
    JoinSnoc(init, r);
    var head := "[" + Join(init) + [',', '\n'];
    assert "[" + Join(init + [r]) + [c, '\n'] == head + (tail + "\n");
    SplitLinesAppend(head, tail + "\n");
    assert tail + "\n" == r + [c, '\n'];
  }

  /** `ls` are the lines of the document for `recs`, closed by `close`. */
  predicate DocLines(ls: seq<string>, recs: seq<string>, close: string) {
    |ls| == |recs| && forall i :: 0 <= i < |recs| ==> ls[i] == DocLine(recs, i, close)
  }

  lemma DocLinesSnoc(hs: seq<string>, init: seq<string>, r: string, c: char)
    requires init != [] && DocLines(hs, init, ",\n")
    ensures DocLines(hs + [r + [c, '\n']], init + [r], [c, '\n'])
  {
    var recs, ls, n := init + [r], hs + [r + [c, '\n']], |init| + 1;
    forall i | 0 <= i < n ensures ls[i] == DocLine(recs, i, [c, '\n']) {
      if i < n - 1 {
        assert ls[i] == hs[i] == DocLine(init, i, ",\n");
        assert init[i] == recs[i];
      } else {
        assert DocLine(recs, i, [c, '\n']) == r + [c, '\n'];
      }
    }
  }

  lemma {:induction false} SplitFramed(recs: seq<string>, c: char)
    requires recs != [] && c != '\n'
    requires forall k :: 0 <= k < |recs| ==> NewlineFree(recs[k])
    ensures DocLines(SplitLines("[" + Join(recs) + [c, '\n']), recs, [c, '\n'])
    decreases |recs|
  {
    var n := |recs|;
    var r := recs[n - 1];
    if n == 1 {
      SplitFramedOne(r, c);
      assert recs == [r];
    } else {
      var init := recs[..n - 1];
      SplitFramed(init, ',');
      SplitFramedStep(init, r, c);
      DocLinesSnoc(SplitLines("[" + Join(init) + [',', '\n']), init, r, c);
      assert init + [r] == recs;
    }
  }

  /** The exported document, read back line by line, holds one record per line, in order,
      each byte-identical to its trimmed input line. */
  lemma DocumentLines(lines: seq<string>)
    requires forall k :: 0 <= k < |lines| ==> OneLine(lines[k])
    requires Records(lines) != []
    ensures DocLines(SplitLines(Emitted(lines)), Records(lines), "]\n")
  {
    var recs := Records(lines);
    RecordsNewlineFree(lines);
    SplitFramed(recs, ']');
    assert Emitted(lines) == "[" + Join(recs) + [']', '\n'];
  }

  /** Records carry no newline when the lines they come from carry one only at their end. */
  lemma {:induction false} RecordsNewlineFree(lines: seq<string>)
    requires forall k :: 0 <= k < |lines| ==> OneLine(lines[k])
    ensures forall k :: 0 <= k < |Records(lines)| ==> NewlineFree(Records(lines)[k])
  {
    if lines != [] {
      var n := |lines| - 1;
      var init, last := lines[..n], lines[n];
      assert forall k :: 0 <= k < n ==> init[k] == lines[k];
      RecordsNewlineFree(init);
      ReadOneMore(lines, n);
      assert lines[..n + 1] == lines;
      if IsRecord(last) {
        TrimInside(last);
      }
    }
  }
}
