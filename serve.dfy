/** The daemon's trace registry and client sessions (src/serve.rs), one operation at a time.
    `Arc::strong_count` is the explicit `refs` field of a handle, a `BufWriter` is the handle's
    `buffer`, and the file system is the map `disk` from path to contents. */
module Serve {
  import opened Wrappers
  import opened Text
  import Msg
  import Utils

  // ---------------------------------------------------------------------------------------
  // Paths.

  /** `PathBuf::push` on Unix: an absolute `name` replaces the path; otherwise a '/' is put in
      between unless `base` is empty or already ends with one. */
  function PathPush(base: string, name: string): (p: string)
    ensures EndsWith(p, name)
    ensures name == [] || name[0] != '/' ==> StartsWith(p, base)
  {
    if name != [] && name[0] == '/' then name
    else if base == [] || base[|base| - 1] == '/' then base + name
    else base + "/" + name
  }

  /** `trace_file_path`: the file `<trace_id>.jsonl` in `dir`. */
  function TraceFilePath(dir: string, id: string): (p: string)
    ensures EndsWith(p, id + ".jsonl")
  {
    PathPush(dir, id + ".jsonl")
  }

  /** The separator `push` puts after `dir`. */
  function Sep(dir: string): string {
    if dir == [] || dir[|dir| - 1] == '/' then "" else "/"
  }

  /** A trace id that is not an absolute path names a file directly inside `dir`. */
  lemma TraceFileInDir(dir: string, id: string)
    requires id == [] || id[0] != '/'
    ensures TraceFilePath(dir, id) == dir + Sep(dir) + id + ".jsonl"
  {
    if id == [] {
      assert (id + ".jsonl")[0] == '.';
    } else {
      assert (id + ".jsonl")[0] == id[0];
    }
  }

  /** An absolute trace id ignores `dir` altogether: the trace is written to `<id>.jsonl`. */
  lemma AbsoluteIdIgnoresDir(dir: string, id: string)
    requires id != [] && id[0] == '/'
    ensures TraceFilePath(dir, id) == id + ".jsonl"
  {
    assert (id + ".jsonl")[0] == id[0];
  }

  /** Different relative trace ids get different path strings. */
  lemma TraceFilePathInjective(dir: string, a: string, b: string)
    requires a == [] || a[0] != '/'
    requires b == [] || b[0] != '/'
    requires TraceFilePath(dir, a) == TraceFilePath(dir, b)
    ensures a == b
  {
    TraceFileInDir(dir, a);
    TraceFileInDir(dir, b);
    var pre := dir + Sep(dir);
    var p := TraceFilePath(dir, a);
    assert p == pre + (a + ".jsonl") == pre + (b + ".jsonl");
    assert |a| == |b|;
    assert a == p[|pre|..|pre| + |a|];
    assert b == p[|pre|..|pre| + |b|];
  }

  // ---------------------------------------------------------------------------------------
  // The file system: contents by path, and appends to it.

  type Disk = map<string, string>

  /** Contents of the file at `p`; a missing file reads as empty. */
  function At(d: Disk, p: string): string {
    if p in d then d[p] else []
  }

  /** The disk after opening `p` with `create(true)`: the file exists, its contents unchanged. */
  function Created(d: Disk, p: string): (e: Disk)
    ensures p in e && At(e, p) == At(d, p)
    ensures forall q :: q != p ==> At(e, q) == At(d, q)
  {
    d[p := At(d, p)]
  }

  /** Creating a file and then appending to it is the same as appending to it. */
  lemma AppendAfterCreate(d: Disk, p: string, text: string)
    ensures var c := Created(d, p); c[p := At(c, p) + [] + text] == d[p := At(d, p) + text]
  {
    assert At(Created(d, p), p) + [] + text == At(d, p) + text;
  }

  /** One flush of a `BufWriter`: `text` appended to the file at `path`. */
  datatype Write = Write(path: string, text: string)

  /** The disk after the writes, in order. */
  function ApplyWrites(d: Disk, ws: seq<Write>): Disk {
    if ws == [] then d
    else
      var e := ApplyWrites(d, ws[..|ws| - 1]);
      var w := ws[|ws| - 1];
      e[w.path := At(e, w.path) + w.text]
  }

  predicate Distinct<T(==)>(xs: seq<T>) {
    forall j, k :: 0 <= j < k < |xs| ==> xs[j] != xs[k]
  }

  /** `ids` lists the keys of `m`, each exactly once. */
  ghost predicate EntryOrder(m: map<string, TraceFile>, ids: seq<string>) {
    |ids| == |m|
    && (forall k :: 0 <= k < |ids| ==> ids[k] in m)
    && (forall id :: id in m ==> id in ids)
    && Distinct(ids)
  }

  /** The registry's handles for `ids`, in that order. */
  function Lookup(m: map<string, TraceFile>, ids: seq<string>): seq<TraceFile>
    requires forall k :: 0 <= k < |ids| ==> ids[k] in m
  {
    seq(|ids|, k requires 0 <= k < |ids| => m[ids[k]])
  }

  /** `hs` lists the handles of the registry `m`, each exactly once. */
  predicate EntriesOf(m: map<string, TraceFile>, hs: seq<TraceFile>) {
    (forall k :: 0 <= k < |hs| ==> hs[k].traceId in m && m[hs[k].traceId] == hs[k])
    && (forall id :: id in m ==> m[id] in hs)
    && Distinct(hs)
  }

  /** The handles of a well-formed registry, in iteration order, are its entries, each once. */
  lemma LookupEntries(m: map<string, TraceFile>, ids: seq<string>)
    requires EntryOrder(m, ids)
    requires forall id :: id in m ==> m[id].traceId == id
    ensures EntriesOf(m, Lookup(m, ids))
  {
    var hs := Lookup(m, ids);
    forall id | id in m ensures m[id] in hs {
      var k :| 0 <= k < |ids| && ids[k] == id;
      assert hs[k] == m[id];
    }
  }

  /** The trace ids of the first `n` handles of `hs`. */
  function FirstIds(hs: seq<TraceFile>, n: nat): set<string>
    requires n <= |hs|
  {
    set k | 0 <= k < n :: hs[k].traceId
  }

  /** Another listing of the same handles, each once, lists the registry's entries as well. */
  lemma EntriesPermuted(m: map<string, TraceFile>, hs: seq<TraceFile>, all: seq<TraceFile>)
    requires EntriesOf(m, hs) && |all| == |hs| && Distinct(all)
    requires forall k :: 0 <= k < |all| ==> all[k] in hs
    requires forall k :: 0 <= k < |hs| ==> hs[k] in all
    ensures EntriesOf(m, all)
  {
    forall id | id in m ensures m[id] in all {
      var j :| 0 <= j < |hs| && hs[j] == m[id];
    }
  }

  lemma DistinctConcat<T>(a: seq<T>, b: seq<T>)
    requires Distinct(a) && Distinct(b)
    requires forall k :: 0 <= k < |a| ==> a[k] !in b
    ensures Distinct(a + b)
  {
    forall j, k | 0 <= j < k < |a + b| ensures (a + b)[j] != (a + b)[k] {
      if k >= |a| && j < |a| {
        assert (a + b)[k] == b[k - |a|];
      }
    }
  }

  lemma ApplyWritesSnoc(d: Disk, ws: seq<Write>, w: Write)
    ensures ApplyWrites(d, ws + [w]) == ApplyWrites(d, ws)[w.path := At(ApplyWrites(d, ws), w.path) + w.text]
  {
    assert (ws + [w])[..|ws|] == ws;
  }

  /** Two batches of writes in a row are the batches' writes in order. */
  lemma {:induction false} ApplyWritesAppend(d: Disk, a: seq<Write>, b: seq<Write>)
    ensures ApplyWrites(d, a + b) == ApplyWrites(ApplyWrites(d, a), b)
    decreases |b|
  {
    if b == [] {
      assert a + b == a;
    } else {
      var init := b[..|b| - 1];
      assert (a + b)[..|a + b| - 1] == a + init;
      ApplyWritesAppend(d, a, init);
    }
  }

  // ---------------------------------------------------------------------------------------
  // Exports: `TraceFile::emit_tef`.

  function Min(a: nat, b: nat): nat {
    if a <= b then a else b
  }

  /** The first `len` characters of the trace file at `src`, as `take(len)` reads them. The
      output file is created, and so truncated, before anything is read; exporting a trace onto
      its own file therefore reads it as empty. */
  function ExportSource(d: Disk, src: string, dst: string, len: nat): string {
    var text := if dst == src then "" else At(d, src);
    text[..Min(len, |text|)]
  }

  /** The disk after exporting the first `len` characters of `src` into `dst`. Opening `src`
      fails when it does not exist or is refused, creating `dst` when it is refused; either
      failure writes nothing. */
  function Exported(d: Disk, src: string, dst: string, len: nat, failing: set<string>): (e: Disk)
  {
    if src !in d || src in failing || dst in failing then d
    else d[dst := Utils.Emitted(SplitLines(ExportSource(d, src, dst, len)))]
  }

  /** Text appended to the trace file after its length was taken does not change the export:
      this is why the export can run in the background while sessions keep appending. */
  lemma ExportStable(d: Disk, src: string, dst: string, len: nat, more: string, failing: set<string>)
    requires dst != src && src in d && len <= |d[src]|
    ensures At(Exported(d[src := d[src] + more], src, dst, len, failing), dst)
         == At(Exported(d, src, dst, len, failing), dst)
  {
    var d' := d[src := d[src] + more];
    assert ExportSource(d', src, dst, len) == At(d', src)[..len] == At(d, src)[..len] == ExportSource(d, src, dst, len);
  }

  /** The text the daemon appends for these records: each followed by a newline. */
  function AddedText(jsons: seq<string>): string {
    if jsons == [] then "" else AddedText(jsons[..|jsons| - 1]) + jsons[|jsons| - 1] + "\n"
  }

  /** Records the daemon accepted, as `decode_line` hands them out: non-empty, trimmed,
      braced, without a newline. */
  predicate Accepted(jsons: seq<string>) {
    forall k :: 0 <= k < |jsons| ==> Msg.IsBraced(jsons[k]) && Trimmed(jsons[k]) && NewlineFree(jsons[k])
  }

  /** Appended records read back as one line each. */
  lemma {:induction false} AddedLines(jsons: seq<string>)
    requires forall k :: 0 <= k < |jsons| ==> NewlineFree(jsons[k])
    ensures |SplitLines(AddedText(jsons))| == |jsons|
    ensures forall k :: 0 <= k < |jsons| ==> SplitLines(AddedText(jsons))[k] == jsons[k] + "\n"
    decreases |jsons|
  {
    if jsons != [] {
      var n := |jsons| - 1;
      var init := jsons[..n];
      AddedLines(init);
      var a := AddedText(init);
      var last := jsons[n] + "\n";
      assert a == [] || a[|a| - 1] == '\n';
      assert AddedText(jsons) == a + last;
      SplitLinesAppend(a, last);
      SplitOneLine(jsons[n]);
      var ls := SplitLines(AddedText(jsons));
      assert ls == SplitLines(a) + [last];
      forall k | 0 <= k < |jsons| ensures ls[k] == jsons[k] + "\n" {
        if k < n {
          assert ls[k] == SplitLines(a)[k];
          assert init[k] == jsons[k];
        }
      }
    }
  }

  /** Exporting a trace file that holds exactly the records the daemon appended gives the TEF
      array of those records, in order: `Add` and `EMIT_TEF` round-trip. */
  lemma ExportAdded(jsons: seq<string>)
    requires Accepted(jsons)
    ensures Utils.Emitted(SplitLines(AddedText(jsons))) == Utils.Frame(jsons)
  {
    AddedLines(jsons);
    var lines := SplitLines(AddedText(jsons));
    forall k | 0 <= k < |lines| ensures Utils.IsRecord(lines[k]) && Trim(lines[k]) == jsons[k] {
      assert lines[k] == jsons[k] + "\n";
      assert AllSpace("\n");
      assert [] + jsons[k] + "\n" == jsons[k] + "\n";
      TrimPadded([], jsons[k], "\n");
    }
    Utils.AllRecords(lines);
    assert Utils.Records(lines) == jsons;
  }

  // ---------------------------------------------------------------------------------------
  // What a session reads.

  /** The messages a sequence of received lines decodes to. */
  function Decoded(lines: seq<string>): seq<Msg.Msg> {
    seq(|lines|, k requires 0 <= k < |lines| => Msg.DecodeLine(lines[k]))
  }

  /** Number of messages the decoder rejected: the session's `n_errors` after reading them. */
  function ParseErrors(ms: seq<Msg.Msg>): nat {
    if ms == [] then 0
    else ParseErrors(ms[..|ms| - 1]) + (if ms[|ms| - 1].ParseError? then 1 else 0)
  }

  /** The records of the `ADD` messages among `ms`, in order. */
  function AddedJsons(ms: seq<Msg.Msg>): seq<string> {
    if ms == [] then []
    else AddedJsons(ms[..|ms| - 1]) + (if ms[|ms| - 1].Add? then [ms[|ms| - 1].json] else [])
  }

  /** None of `ms` rebinds the session, exports or kills the daemon. */
  predicate OnlyAdds(ms: seq<Msg.Msg>) {
    forall k :: 0 <= k < |ms| ==> !ms[k].Open? && !ms[k].EmitTef? && !ms[k].Die?
  }

  /** Taking one more message updates the error count, the idle request and the appended text
      by that message alone. */
  lemma CountersSnoc(ms: seq<Msg.Msg>, n: nat)
    requires n < |ms|
    ensures ParseErrors(ms[..n + 1]) == ParseErrors(ms[..n]) + (if ms[n].ParseError? then 1 else 0)
    ensures Msg.DieWhenIdle in ms[..n + 1] <==> Msg.DieWhenIdle in ms[..n] || ms[n].DieWhenIdle?
    ensures Msg.Die in ms[..n + 1] <==> Msg.Die in ms[..n] || ms[n].Die?
    ensures AddedText(AddedJsons(ms[..n + 1]))
         == AddedText(AddedJsons(ms[..n])) + (if ms[n].Add? then ms[n].json + "\n" else "")
  {
    assert ms[..n + 1] == ms[..n] + [ms[n]];
    assert ms[..n + 1][..n] == ms[..n];
    var js := AddedJsons(ms[..n]);
    if ms[n].Add? {
      assert (js + [ms[n].json])[..|js|] == js;
    } else {
      assert js + [] == js;
    }
  }

  /** A line a client writes for `m`, with its newline, decodes to `m`. */
  lemma DecodeEncodedLine(m: Msg.Msg)
    requires Msg.WellFormed(m)
    ensures Msg.DecodeLine(Msg.Encode(m) + "\n") == m
  {
    assert AllSpace("\n");
    assert Msg.Encode(m) + "\n" == [] + Msg.Encode(m) + "\n";
    Msg.DecodeEncode(m, [], "\n");
  }

  /** The lines a client writes for the messages `ms`. */
  function Encoded(ms: seq<Msg.Msg>): (lines: seq<string>)
    requires forall k :: 0 <= k < |ms| ==> Msg.WellFormed(ms[k])
  {
    seq(|ms|, k requires 0 <= k < |ms| => Msg.Encode(ms[k]) + "\n")
  }

  /** The text a client writes for `ms` is read back, line by line, as exactly the lines it wrote
      for each message. */
  lemma {:induction false} SplitEncoded(ms: seq<Msg.Msg>)
    requires forall k :: 0 <= k < |ms| ==> Msg.WellFormed(ms[k])
    ensures SplitLines(Concat(Encoded(ms))) == Encoded(ms)
    decreases |ms|
  {
    var ls := Encoded(ms);
    if ms != [] {
      assert ls[1..] == Encoded(ms[1..]);
      SplitEncoded(ms[1..]);
      var first := Msg.Encode(ms[0]) + "\n";
      assert first[|first| - 1] == '\n';
      SplitLinesAppend(first, Concat(ls[1..]));
      SplitOneLine(Msg.Encode(ms[0]));
      assert ls == [first] + ls[1..];
    }
  }

  /** A session receives exactly the messages its client sent: reading the client's text line by
      line and decoding each line gives them back, in order. */
  lemma DecodedEncoded(ms: seq<Msg.Msg>)
    requires forall k :: 0 <= k < |ms| ==> Msg.WellFormed(ms[k])
    ensures Decoded(SplitLines(Concat(Encoded(ms)))) == ms
  {
    SplitEncoded(ms);
    forall k | 0 <= k < |ms| ensures Msg.DecodeLine(Encoded(ms)[k]) == ms[k] {
      DecodeEncodedLine(ms[k]);
    }
  }

  /** `Add` then `EMIT_TEF`: exporting, onto another file, the whole of a trace file that holds
      exactly the records the daemon appended writes the TEF array of those records. */
  lemma ExportAppended(d: Disk, src: string, dst: string, jsons: seq<string>, failing: set<string>)
    requires src != dst && Accepted(jsons)
    requires src in d && d[src] == AddedText(jsons) && src !in failing && dst !in failing
    ensures At(Exported(d, src, dst, |d[src]|, failing), dst) == Utils.Frame(jsons)
  {
    ExportAdded(jsons);
    assert ExportSource(d, src, dst, |d[src]|) == AddedText(jsons);
  }

  /** The text appended for two records: each followed by a newline. */
  lemma AddedTwo(a: string, b: string)
    ensures AddedText([a, b]) == [] + a + "\n" + b + "\n"
  {
    assert [a, b][..1] == [a] && [a][..0] == [];
    assert AddedText([a]) == AddedText([]) + a + "\n";
    assert AddedText([a, b]) == AddedText([a]) + b + "\n";
  }

  /** The TEF array of two records. */
  lemma FrameTwo(a: string, b: string)
    ensures Utils.Frame([a, b]) == "[" + a + ",\n" + b + "]\n"
  {
    assert [a, b][..1] == [a];
    assert Utils.Join([a, b]) == a + ",\n" + b;
  }

  /** The daemon's state at one moment, kept while a session runs. */
  datatype Snapshot = Snapshot(files: map<string, TraceFile>, handles: set<TraceFile>, disk: Disk, active: bool,
                               refs: map<TraceFile, nat>, buffers: map<TraceFile, string>)

  /** How a session goes on after a message. */
  datatype Flow =
    | Continue
    | Stop                // the loop is left normally
    | Fail(why: Failure)  // `?` returned the error from `handle_client`

  /** Why a session ended with an error. */
  datatype Failure =
    | CannotOpen(path: string)   // `OpenOptions::open` failed
    | NoTraceFile                // "No trace file defined"

  // ---------------------------------------------------------------------------------------
  // The registry and the sessions.

  /** An open trace: `TraceFile` behind its `Arc`. */
  class TraceFile {
    const traceId: string
    const path: string
    /** What was written into the `BufWriter` and not yet flushed. */
    var buffer: string
    /** `Arc::strong_count`: the registry entry and every session that holds the handle. */
    var refs: nat

    constructor (traceId: string, path: string)
      ensures this.traceId == traceId && this.path == path
      ensures buffer == [] && refs == 1
    {
      this.traceId := traceId;
      this.path := path;
      buffer := [];
      refs := 1;
    }

    /** `writeln!(out, "{}", json)`: the record and a newline go into the `BufWriter`. */
    method Append(json: string)
      modifies this`buffer
      ensures buffer == old(buffer) + json + "\n"
    {
      buffer := buffer + json + "\n";
    }
  }

  class State {
    var active: bool
    var dieWhenIdle: bool
    /** The single file into which all traces go, when the user gave one. */
    const intoFile: Option<string>
    const dir: string
    var files: map<string, TraceFile>
    var disk: Disk
    /** Every handle this registry has created. */
    ghost var handles: set<TraceFile>

    /** Each entry is registered under its own trace id, writes to the path that id opens, and
        counts as one holder. */
    ghost predicate Valid()
      reads this`files, this`handles, handles`refs
    {
      && (forall id :: id in files ==> files[id] in handles && files[id].traceId == id && files[id].refs >= 1)
      && Routed()
    }

    /** Each entry writes to the path its trace id opens: the single file if one was given,
        else its own file in `dir`. */
    ghost predicate Routed()
      reads this`files
    {
      && (intoFile.Some? ==> forall id :: id in files ==> files[id].path == intoFile.value)
      && (intoFile.None? ==> forall id :: id in files ==> files[id].path == TraceFilePath(dir, id))
    }

    /** `f` is the registry entry for its trace id. */
    ghost predicate Mapped(f: TraceFile)
      reads this`files
    {
      f.traceId in files && files[f.traceId] == f
    }

    /** A session's binding: the handle counts the session as a holder besides the registry. */
    ghost predicate Holds(b: Option<TraceFile>)
      reads this`files, this`handles, handles`refs
    {
      b.Some? ==> b.value in handles && b.value.refs >= 1 + (if Mapped(b.value) then 1 else 0)
    }

    /** The daemon's state as a value, with the count and buffer of every handle. */
    ghost function Snap(): Snapshot
      reads this, handles
    {
      Snapshot(files, handles, disk, active, map g | g in handles :: g.refs, map g | g in handles :: g.buffer)
    }

    /** Since `s` was taken, nothing has changed but `f`'s buffer, which has grown by `more`. */
    ghost predicate Grown(s: Snapshot, f: TraceFile, more: string)
      reads this, handles
    {
      files == s.files && handles == s.handles && disk == s.disk && active == s.active
      && f in handles && f in s.buffers && f.buffer == s.buffers[f] + more
      && (forall g :: g in handles ==> g in s.refs && g.refs == s.refs[g])
      && (forall g :: g in handles && g != f ==> g in s.buffers && g.buffer == s.buffers[g])
    }

    /** The invariant of the session loop after `n` of `msgs` were read. `s0` is the state and
        `idle` the idle flag when the loop began, `bound` the binding it began with and `binding`
        the current one; `appended` is the text of the records read. `adding` claims that the
        session is bound and no message rebinds, exports or kills; then nothing has changed
        since `s0` but the bound buffer, which has grown by `appended`. */
    ghost predicate Reading(msgs: seq<Msg.Msg>, n: nat, bound: Option<TraceFile>, binding: Option<TraceFile>,
                            nErrors: nat, flow: Flow, s0: Snapshot, idle: bool, adding: bool, appended: string)
      reads this, handles
    {
      Valid() && Holds(binding) && n <= |msgs|
      && nErrors == ParseErrors(msgs[..n])
      && dieWhenIdle == (idle || Msg.DieWhenIdle in msgs[..n])
      && appended == AddedText(AddedJsons(msgs[..n]))
      && s0.handles <= handles
      && (active ==> s0.active) && (!s0.active ==> n == 0)
      && (bound.Some? ==> binding.Some? && (flow.Fail? ==> flow.why.CannotOpen?))
      && (flow.Fail? ==> 0 < n && var m := msgs[n - 1];
           m.Open? || ((m.Add? || m.EmitTef?) && flow.why.NoTraceFile?))
      && (flow.Stop? ==> !active && 0 < n && msgs[n - 1].Die?)
      && (Msg.Die in msgs[..n] ==> !active)
      && (adding ==> OnlyAdds(msgs) && bound.Some? && flow.Continue? && binding == bound
                     && Grown(s0, bound.value, appended))
    }

    /** The handles some session holds. */
    ghost function Held(): set<TraceFile>
      reads this`files, this`handles, handles`refs
    {
      set f | f in handles && Holds(Some(f))
    }

    constructor (dir: string, intoFile: Option<string>, disk: Disk)
      ensures Valid() && Holds(None)
      ensures active && !dieWhenIdle && files == map[] && handles == {}
      ensures this.dir == dir && this.intoFile == intoFile && this.disk == disk
    {
      active := true;
      dieWhenIdle := false;
      this.intoFile := intoFile;
      this.dir := dir;
      files := map[];
      this.disk := disk;
      handles := {};
    }

    /** Where a new trace goes: the single file if one was given, else its own file in `dir`. */
    function TargetPath(id: string): (p: string)
      ensures intoFile.None? ==> EndsWith(p, id + ".jsonl")
      ensures intoFile.Some? ==> p == intoFile.value
    {
      match intoFile
      case Some(p) => p
      case None => TraceFilePath(dir, id)
    }

    /** `get_trace_file`: the registered handle for `id`, or a new one opened in append mode
        (creating its file) and registered. `failing` are the paths the file system refuses to
        open. The caller receives its own clone of the `Arc`. */
    method GetTraceFile(id: string, failing: set<string>) returns (r: Result<TraceFile, Failure>)
      requires Valid()
      modifies this`files, this`disk, this`handles, files.Values`refs
      ensures Valid()
      ensures old(handles) <= handles && fresh(handles - old(handles))
      ensures active == old(active) && dieWhenIdle == old(dieWhenIdle)
      ensures id in old(files) ==>
        r == Ok(old(files)[id]) && files == old(files) && disk == old(disk) && handles == old(handles)
        && r.value.refs == old(r.value.refs) + 1
        && forall f :: f in old(handles) && f != r.value ==> f.refs == old(f.refs)
      ensures id !in old(files) && TargetPath(id) in failing ==>
        r == Err(CannotOpen(TargetPath(id))) && files == old(files) && disk == old(disk)
        && handles == old(handles) && forall f :: f in old(handles) ==> f.refs == old(f.refs)
      ensures id !in old(files) && TargetPath(id) !in failing ==>
        r.Ok? && fresh(r.value) && handles == old(handles) + {r.value}
        && r.value.traceId == id && r.value.path == TargetPath(id)
        && r.value.buffer == [] && r.value.refs == 2
        && files == old(files)[id := r.value]
        && disk == old(disk)[TargetPath(id) := At(old(disk), TargetPath(id))]
        && forall f :: f in old(handles) ==> f.refs == old(f.refs)
    {
      if id in files {
        var f := files[id];
        f.refs := f.refs + 1;
        return Ok(f);
      }
      var path := TargetPath(id);
      if path in failing {
        return Err(CannotOpen(path));
      }
      disk := disk[path := At(disk, path)];
      var f := new TraceFile(id, path);
      f.refs := 2;
      files := files[id := f];
      handles := handles + {f};
      return Ok(f);
    }

    /** `BufWriter::flush`: the buffered text is appended to the file. */
    method Flush(f: TraceFile)
      modifies this`disk, f`buffer
      ensures disk == old(disk)[f.path := At(old(disk), f.path) + old(f.buffer)]
      ensures f.buffer == []
    {
      disk := disk[f.path := At(disk, f.path) + f.buffer];
      f.buffer := [];
    }

    /** Dropping one `Arc`: the count goes down, and when the last one goes the `BufWriter` is
        dropped, which flushes it. */
    method Release(f: TraceFile)
      requires f.refs >= 1
      modifies this`disk, f`buffer, f`refs
      ensures f.refs == old(f.refs) - 1
      ensures f.refs == 0 ==> disk == old(disk)[f.path := At(old(disk), f.path) + old(f.buffer)] && f.buffer == []
      ensures f.refs > 0 ==> disk == old(disk) && f.buffer == old(f.buffer)
    {
      f.refs := f.refs - 1;
      if f.refs == 0 {
        Flush(f);
      }
    }

    /** The registry's trace ids in iteration order: each exactly once. */
    method Entries() returns (ids: seq<string>)
      ensures EntryOrder(files, ids)
    {
      var todo := files.Keys;
      ids := [];
      while todo != {}
        invariant todo <= files.Keys
        invariant |ids| + |todo| == |files|
        invariant forall k :: 0 <= k < |ids| ==> ids[k] in files && ids[k] !in todo
        invariant forall id :: id in files ==> id in todo || id in ids
        invariant forall j, k :: 0 <= j < k < |ids| ==> ids[j] != ids[k]
        decreases todo
      {
        var id :| id in todo;
        ids := ids + [id];
        todo := todo - {id};
      }
    }

    /** Flushes each handle in turn. */
    method FlushEach(hs: seq<TraceFile>) returns (ghost writes: seq<Write>)
      requires Distinct(hs)
      modifies this`disk, hs`buffer
      ensures |writes| == |hs|
      ensures forall k :: 0 <= k < |hs| ==> writes[k] == Write(hs[k].path, old(hs[k].buffer))
      ensures disk == ApplyWrites(old(disk), writes)
      ensures forall k :: 0 <= k < |hs| ==> hs[k].buffer == []
    {
      writes := [];
      for i := 0 to |hs|
        invariant |writes| == i
        invariant forall k :: 0 <= k < i ==> writes[k] == Write(hs[k].path, old(hs[k].buffer))
        invariant disk == ApplyWrites(old(disk), writes)
        invariant forall k :: 0 <= k < i ==> hs[k].buffer == []
        invariant forall k :: i <= k < |hs| ==> hs[k].buffer == old(hs[k].buffer)
      {
        var f := hs[i];
        var w := Write(f.path, f.buffer);
        ApplyWritesSnoc(old(disk), writes, w);
        Flush(f);
        writes := writes + [w];
      }
    }

    /** Drops one `Arc` of each of the first `n` handles: the registry's. When that was the last
        one, the `BufWriter` is dropped as well, which flushes it; callers flush these handles
        themselves, which writes the same text. */
    method DropEach(hs: seq<TraceFile>, n: nat)
      requires Distinct(hs) && n <= |hs|
      requires forall k :: 0 <= k < n ==> hs[k].refs >= 1
      modifies hs`refs
      ensures forall k :: 0 <= k < |hs| ==> hs[k].refs == old(hs[k].refs) - (if k < n then 1 else 0)
    {
      for i := 0 to n
        invariant forall k :: 0 <= k < |hs| ==> hs[k].refs == old(hs[k].refs) - (if k < i then 1 else 0)
      {
        hs[i].refs := hs[i].refs - 1;
      }
    }

    /** `close_all_force`: every entry is drained from the registry and flushed, in the order
        `drained`, and the registry's `Arc` of each goes away with it; `writes` are the flushes. */
    method CloseAllForce() returns (ghost drained: seq<TraceFile>, ghost writes: seq<Write>)
      requires Valid()
      modifies this`files, this`disk, files.Values
      ensures files == map[] && Valid()
      ensures EntriesOf(old(files), drained) && forall k :: 0 <= k < |drained| ==> drained[k] in old(handles)
      ensures |writes| == |drained|
      ensures forall k :: 0 <= k < |drained| ==> writes[k] == Write(drained[k].path, old(drained[k].buffer))
      ensures disk == ApplyWrites(old(disk), writes)
      ensures forall k :: 0 <= k < |drained| ==> drained[k].buffer == [] && drained[k].refs == old(drained[k].refs) - 1
    {
      var hs := Drain();
      writes := FlushEach(hs);
      DropEach(hs, |hs|);
      drained := hs;
    }

    /** `HashMap::drain`: the registry is emptied and its handles come out, each exactly once. */
    method Drain() returns (hs: seq<TraceFile>)
      requires Valid()
      modifies this`files
      ensures files == map[]
      ensures EntriesOf(old(files), hs)
      ensures forall k :: 0 <= k < |hs| ==> hs[k] in handles && hs[k].refs >= 1
    {
      var ids := Entries();
      hs := Lookup(files, ids);
      LookupEntries(files, ids);
      files := map[];
    }

    /** `kill`: the daemon stops accepting work, and every trace is flushed and closed at once as
        by `close_all_force`. */
    method Kill() returns (ghost drained: seq<TraceFile>, ghost writes: seq<Write>)
      requires Valid()
      modifies this`active, this`files, this`disk, files.Values
      ensures !active && dieWhenIdle == old(dieWhenIdle)
      ensures files == map[] && Valid()
      ensures EntriesOf(old(files), drained) && forall k :: 0 <= k < |drained| ==> drained[k] in old(handles)
      ensures |writes| == |drained|
      ensures forall k :: 0 <= k < |drained| ==> writes[k] == Write(drained[k].path, old(drained[k].buffer))
      ensures disk == ApplyWrites(old(disk), writes)
      ensures forall k :: 0 <= k < |drained| ==> drained[k].buffer == [] && drained[k].refs == old(drained[k].refs) - 1
    {
      active := false;
      drained, writes := CloseAllForce();
    }

    /** The classification pass of `cleaner_thread`: a handle only the registry holds
        (`Arc::strong_count == 1`) is dead, any other is live. Together they list `hs`. */
    method Classify(hs: seq<TraceFile>) returns (dead: seq<TraceFile>, live: seq<TraceFile>)
      requires Distinct(hs)
      ensures forall k :: 0 <= k < |dead + live| ==> (k < |dead| <==> (dead + live)[k].refs == 1)
      ensures |dead + live| == |hs| && Distinct(dead + live)
      ensures forall k :: 0 <= k < |dead + live| ==> (dead + live)[k] in hs
      ensures forall k :: 0 <= k < |hs| ==> hs[k] in dead + live
    {
      dead, live := [], [];
      for i := 0 to |hs|
        invariant forall k :: 0 <= k < |dead| ==> dead[k] in hs[..i] && dead[k].refs == 1
        invariant forall k :: 0 <= k < |live| ==> live[k] in hs[..i] && live[k].refs != 1
        invariant forall k :: 0 <= k < i ==> hs[k] in dead || hs[k] in live
        invariant |dead| + |live| == i
        invariant Distinct(dead) && Distinct(live)
      {
        var f := hs[i];
        assert f !in hs[..i];
        if f.refs == 1 {
          dead := dead + [f];
        } else {
          live := live + [f];
        }
        assert hs[..i + 1] == hs[..i] + [f];
      }
      assert hs[..|hs|] == hs;
      DistinctConcat(dead, live);
      forall k | 0 <= k < |dead + live| ensures k < |dead| <==> (dead + live)[k].refs == 1 {
        if k >= |dead| {
          assert (dead + live)[k] == live[k - |dead|];
        }
      }
    }

    /** One round of `cleaner_thread`. `swept` lists the registry's handles, the `nDead` dead
        ones first: those only the registry holds. Each dead handle is removed from the
        registry and flushed, and with the registry's `Arc` goes its last one. The daemon is
        killed if nothing is live and it was asked to die when idle; then the live handles are
        flushed. `writes` are the flushes, in order. A kill finds the registry already empty,
        so it is made here before the dead handles' flushes rather than after them. */
    method Sweep() returns (ghost swept: seq<TraceFile>, ghost nDead: nat, ghost writes: seq<Write>, killed: bool)
      requires Valid()
      modifies this`active, this`files, this`disk, files.Values
      ensures Valid()
      ensures EntriesOf(old(files), swept) && forall k :: 0 <= k < |swept| ==> swept[k] in old(handles)
      ensures nDead <= |swept| && forall k :: 0 <= k < |swept| ==> (k < nDead <==> old(swept[k].refs) == 1)
      ensures files == old(files) - FirstIds(swept, nDead)
      ensures handles == old(handles) && old(Held()) <= Held()
      ensures killed == (old(dieWhenIdle) && nDead == |swept|)
      ensures active == (old(active) && !killed) && dieWhenIdle == old(dieWhenIdle)
      ensures |writes| == |swept|
      ensures forall k :: 0 <= k < |swept| ==> writes[k] == Write(swept[k].path, old(swept[k].buffer))
      ensures disk == ApplyWrites(old(disk), writes)
      ensures forall k :: 0 <= k < |swept| ==>
        swept[k].buffer == [] && swept[k].refs == old(swept[k].refs) - (if k < nDead then 1 else 0)
    {
      var ids := Entries();
      var hs := Lookup(files, ids);
      LookupEntries(files, ids);
      var dead, live := Classify(hs);
      var all := dead + live;
      EntriesPermuted(files, hs, all);
      swept, nDead := all, |dead|;
      assert old(Held()) == Held();
      writes, killed := Retire(all, |dead|);
    }

    /** The second half of a cleaner round, once the registry's handles `all` are listed with
        the `nDead` dead ones first. */
    method Retire(all: seq<TraceFile>, nDead: nat) returns (ghost writes: seq<Write>, killed: bool)
      requires Valid() && EntriesOf(files, all) && nDead <= |all|
      requires forall k :: 0 <= k < |all| ==> all[k] in handles && (k < nDead <==> all[k].refs == 1)
      modifies this`active, this`files, this`disk, all
      ensures Valid()
      ensures files == old(files) - FirstIds(all, nDead)
      ensures handles == old(handles) && old(Held()) <= Held()
      ensures killed == (old(dieWhenIdle) && nDead == |all|)
      ensures active == (old(active) && !killed) && dieWhenIdle == old(dieWhenIdle)
      ensures |writes| == |all|
      ensures forall k :: 0 <= k < |all| ==> writes[k] == Write(all[k].path, old(all[k].buffer))
      ensures disk == ApplyWrites(old(disk), writes)
      ensures forall k :: 0 <= k < |all| ==>
        all[k].buffer == [] && all[k].refs == old(all[k].refs) - (if k < nDead then 1 else 0)
    {
      killed := RemoveDead(all, nDead);
      label removed:
      writes := FlushEach(all);
      assert old@removed(Held()) == Held();
    }

    /** The dead handles leave the registry and lose its `Arc`; the daemon is killed when
        nothing is live and it was asked to die when idle. */
    method RemoveDead(all: seq<TraceFile>, nDead: nat) returns (killed: bool)
      requires Valid() && EntriesOf(files, all) && nDead <= |all|
      requires forall k :: 0 <= k < |all| ==> all[k] in handles && (k < nDead <==> all[k].refs == 1)
      modifies this`active, this`files, all`refs
      ensures Valid()
      ensures files == old(files) - FirstIds(all, nDead)
      ensures handles == old(handles) && old(Held()) <= Held()
      ensures killed == (old(dieWhenIdle) && nDead == |all|)
      ensures active == (old(active) && !killed)
      ensures forall k :: 0 <= k < |all| ==> all[k].refs == old(all[k].refs) - (if k < nDead then 1 else 0)
    {
      Unregister(all, nDead);
      killed := nDead == |all| && dieWhenIdle;
      if killed {
        // Nothing is live, so the registry is empty now and `close_all_force` has nothing to do.
        active := false;
      }
    }

    /** The dead handles leave the registry and lose its `Arc`. No session held them, so every
        handle a session holds keeps the count it needs. */
    method Unregister(all: seq<TraceFile>, nDead: nat)
      requires Valid() && EntriesOf(files, all) && nDead <= |all|
      requires forall k :: 0 <= k < |all| ==> all[k] in handles && (k < nDead <==> all[k].refs == 1)
      modifies this`files, all`refs
      ensures Valid()
      ensures files == old(files) - FirstIds(all, nDead)
      ensures old(Held()) <= Held()
      ensures forall k :: 0 <= k < |all| ==> all[k].refs == old(all[k].refs) - (if k < nDead then 1 else 0)
    {
      forall f, k | f in handles && Holds(Some(f)) && 0 <= k < nDead ensures all[k] != f {
        // all[k] is registered under its id with a count of one, which leaves no room for a
        // session besides the registry.
      }
      files := files - FirstIds(all, nDead);
      forall id | id in files ensures exists j :: nDead <= j < |all| && all[j] == files[id] {
        var j :| 0 <= j < |all| && all[j] == files[id];
      }
      DropEach(all, nDead);
      forall f | f in handles && old(Holds(Some(f))) ensures Holds(Some(f)) {
        if f in all {
          var j :| 0 <= j < |all| && all[j] == f;
          assert j >= nDead;
        }
        if old(Mapped(f)) {
          assert f.traceId !in FirstIds(all, nDead);
        }
      }
    }

    /** `TraceFile::emit_tef`: the TEF document for the first `len` characters of `f`'s file is
        written to `dst`. The request returns at once and the export is made in the background;
        it is modelled as made at once, which `ExportStable` justifies. */
    method Export(f: TraceFile, dst: string, len: nat, failing: set<string>) returns (r: Result<(), Failure>)
      modifies this`disk
      ensures disk == Exported(old(disk), f.path, dst, len, failing)
      ensures r.Ok? <==> f.path in old(disk) && f.path !in failing && dst !in failing
      ensures r.Err? ==> r.error == CannotOpen(if f.path !in old(disk) || f.path in failing then f.path else dst)
    {
      if f.path !in disk || f.path in failing {
        return Err(CannotOpen(f.path));
      }
      if dst in failing {
        return Err(CannotOpen(dst));
      }
      var source := ExportSource(disk, f.path, dst, len);
      var lines := SplitLines(source);
      var doc, badJson := Utils.EmitTef(lines);
      disk := disk[dst := doc];
      return Ok(());
    }

    /** The `OPEN` arm: the handle for `id` is acquired first, and only then is the old binding
        given up. When acquiring fails, `?` ends the session and the old binding stays. */
    method Rebind(id: string, bound: Option<TraceFile>, failing: set<string>)
      returns (bound': Option<TraceFile>, flow: Flow)
      requires Valid() && Holds(bound)
      modifies this`files, this`disk, this`handles, handles`refs, handles`buffer
      ensures Valid() && Holds(bound')
      ensures old(handles) <= handles && fresh(handles - old(handles))
      ensures active == old(active) && dieWhenIdle == old(dieWhenIdle)
      ensures flow == Continue ==> bound'.Some? && bound'.value.traceId == id && Mapped(bound'.value)
      ensures id in old(files) ==> var g := old(files)[id];
        flow == Continue && bound' == Some(g) && files == old(files) && handles == old(handles)
        && g.refs == old(g.refs) + (if bound == Some(g) then 0 else 1)
      ensures id !in old(files) && TargetPath(id) in failing ==>
        flow == Fail(CannotOpen(TargetPath(id))) && bound' == bound && files == old(files) && disk == old(disk)
        && handles == old(handles) && forall f :: f in handles ==> f.refs == old(f.refs) && f.buffer == old(f.buffer)
      ensures id !in old(files) && TargetPath(id) !in failing ==>
        flow == Continue && bound'.Some? && fresh(bound'.value) && files == old(files)[id := bound'.value]
        && bound'.value.path == TargetPath(id) && bound'.value.buffer == [] && bound'.value.refs == 2
      ensures flow == Continue ==>
        forall f :: f in old(handles) && Some(f) != bound' && Some(f) != bound ==>
          f.refs == old(f.refs) && f.buffer == old(f.buffer)
      ensures flow == Continue && bound.Some? && bound != bound' ==>
        var o, afterOpen := bound.value, if id in old(files) then old(disk) else Created(old(disk), TargetPath(id));
        o.refs == old(o.refs) - 1
        && if o.refs == 0 then
             disk == afterOpen[o.path := At(afterOpen, o.path) + old(o.buffer)] && o.buffer == []
           else
             disk == afterOpen && o.buffer == old(o.buffer)
      ensures flow == Continue && (bound.None? || bound == bound') ==>
        disk == (if id in old(files) then old(disk) else Created(old(disk), TargetPath(id)))
    {
      var r := GetTraceFile(id, failing);
      if r.Err? {
        return bound, Fail(r.error);
      }
      if bound.Some? {
        Release(bound.value);
      }
      return Some(r.value), Continue;
    }

    /** The `EMIT_TEF` arm with a bound handle `f`: flush it, take the file's length, and export
        that much of it to `dst`. The clone moved into the exporting thread holds the handle
        until the export is done. */
    method RequestExport(f: TraceFile, dst: string, failing: set<string>)
      modifies this`disk, f`buffer, f`refs
      ensures var flushed := old(disk)[f.path := At(old(disk), f.path) + old(f.buffer)];
        disk == Exported(flushed, f.path, dst, |At(flushed, f.path)|, failing)
      ensures f.buffer == [] && f.refs == old(f.refs)
    {
      Flush(f);
      var len := |At(disk, f.path)|;
      f.refs := f.refs + 1;
      var _ := Export(f, dst, len, failing);
      f.refs := f.refs - 1;
    }

    /** One message of `handle_client`. `bound` is the session's handle, `nErrors` its count of
        invalid messages; `failing` are the paths the file system refuses to open. */
    method Dispatch(m: Msg.Msg, bound: Option<TraceFile>, nErrors: nat, failing: set<string>)
      returns (bound': Option<TraceFile>, nErrors': nat, flow: Flow, ghost drained: seq<TraceFile>, ghost writes: seq<Write>)
      requires Valid() && Holds(bound)
      modifies this, handles
      ensures Valid() && Holds(bound')
      ensures old(handles) <= handles && fresh(handles - old(handles))
      ensures nErrors' == nErrors + (if m.ParseError? then 1 else 0)
      ensures !m.Open? ==> bound' == bound
      ensures m.Open? && flow == Continue ==> bound'.Some? && bound'.value.traceId == m.traceId && Mapped(bound'.value)
      ensures flow == Stop <==> m.Die?
      ensures flow == Fail(NoTraceFile) <==> (m.Add? || m.EmitTef?) && bound.None?
      ensures flow.Fail? ==> bound' == bound && (m.Open? || flow == Fail(NoTraceFile))
      ensures m.Die? ==> !active && files == map[]
      ensures !m.Die? ==> active == old(active)
      ensures dieWhenIdle == (old(dieWhenIdle) || m.DieWhenIdle?)
      ensures m.Empty? || m.ParseError? || m.DieWhenIdle? || flow == Fail(NoTraceFile) ==>
        files == old(files) && disk == old(disk) && handles == old(handles)
        && forall f :: f in handles ==> f.buffer == old(f.buffer) && f.refs == old(f.refs)
      ensures m.Add? && bound.Some? ==> var f := bound.value;
        f.buffer == old(f.buffer) + m.json + "\n" && f.refs == old(f.refs)
        && files == old(files) && disk == old(disk) && handles == old(handles)
        && forall g :: g in handles && g != f ==> g.buffer == old(g.buffer) && g.refs == old(g.refs)
      ensures m.EmitTef? && bound.Some? ==> var f := bound.value;
        var flushed := old(disk)[f.path := At(old(disk), f.path) + old(f.buffer)];
        disk == Exported(flushed, f.path, m.path, |At(flushed, f.path)|, failing)
        && f.buffer == [] && f.refs == old(f.refs) && files == old(files) && handles == old(handles)
        && forall g :: g in handles && g != f ==> g.buffer == old(g.buffer) && g.refs == old(g.refs)
      ensures m.Die? ==>
        handles == old(handles)
        && (forall g :: g in old(handles) && g !in old(files).Values ==> g.refs == old(g.refs) && g.buffer == old(g.buffer))
        && EntriesOf(old(files), drained) && (forall k :: 0 <= k < |drained| ==> drained[k] in old(handles))
        && |writes| == |drained| && disk == ApplyWrites(old(disk), writes)
        && (forall k :: 0 <= k < |drained| ==> writes[k] == Write(drained[k].path, old(drained[k].buffer)))
        && forall k :: 0 <= k < |drained| ==> drained[k].buffer == [] && drained[k].refs == old(drained[k].refs) - 1
      ensures m.Open? && m.traceId in old(files) ==> var g := old(files)[m.traceId];
        flow == Continue && bound' == Some(g) && files == old(files) && handles == old(handles)
        && g.refs == old(g.refs) + (if bound == Some(g) then 0 else 1)
      ensures m.Open? && m.traceId !in old(files) && TargetPath(m.traceId) in failing ==>
        flow == Fail(CannotOpen(TargetPath(m.traceId))) && files == old(files) && disk == old(disk)
        && handles == old(handles) && forall f :: f in handles ==> f.refs == old(f.refs) && f.buffer == old(f.buffer)
      ensures m.Open? && m.traceId !in old(files) && TargetPath(m.traceId) !in failing ==>
        flow == Continue && bound'.Some? && fresh(bound'.value) && files == old(files)[m.traceId := bound'.value]
        && bound'.value.path == TargetPath(m.traceId) && bound'.value.buffer == [] && bound'.value.refs == 2
      ensures m.Open? && flow == Continue ==>
        forall f :: f in old(handles) && Some(f) != bound' && Some(f) != bound ==>
          f.refs == old(f.refs) && f.buffer == old(f.buffer)
      ensures m.Open? && flow == Continue && bound.Some? && bound != bound' ==>
        var o, afterOpen := bound.value, if m.traceId in old(files) then old(disk) else Created(old(disk), TargetPath(m.traceId));
        o.refs == old(o.refs) - 1
        && if o.refs == 0 then
             disk == afterOpen[o.path := At(afterOpen, o.path) + old(o.buffer)] && o.buffer == []
           else
             disk == afterOpen && o.buffer == old(o.buffer)
      ensures m.Open? && flow == Continue && (bound.None? || bound == bound') ==>
        disk == (if m.traceId in old(files) then old(disk) else Created(old(disk), TargetPath(m.traceId)))
    {
      bound', nErrors', flow := bound, nErrors, Continue;
      drained, writes := [], [];
      match m
      case Empty =>
      case Die =>
        drained, writes := Kill();
        flow := Stop;
      case DieWhenIdle =>
        dieWhenIdle := true;
      case Open(id) =>
        bound', flow := Rebind(id, bound, failing);
      case Add(json) =>
        if bound.None? {
          return bound, nErrors, Fail(NoTraceFile), [], [];
        }
        bound.value.Append(json);
      case EmitTef(path) =>
        if bound.None? {
          return bound, nErrors, Fail(NoTraceFile), [], [];
        }
        RequestExport(bound.value, path, failing);
      case ParseError(_) =>
        nErrors' := nErrors + 1;
    }

    /** The end of a session: its clone of the bound handle is dropped, after a flush when the
        session ended normally. The registry keeps its own count, so it stays valid. */
    method Leave(bound: Option<TraceFile>, flush: bool)
      requires Valid() && Holds(bound)
      modifies this`disk, handles`buffer, handles`refs
      ensures Valid()
      ensures forall f :: f in handles && bound != Some(f) ==> f.buffer == old(f.buffer) && f.refs == old(f.refs)
      ensures bound.None? ==> disk == old(disk)
      ensures bound.Some? ==> var f := bound.value;
        f.refs == old(f.refs) - 1
        && if flush || f.refs == 0 then
             disk == old(disk)[f.path := At(old(disk), f.path) + old(f.buffer)] && f.buffer == []
           else
             disk == old(disk) && f.buffer == old(f.buffer)
    {
      if bound.Some? {
        var f := bound.value;
        if flush {
          Flush(f);
          ghost var flushed := disk;
          Release(f);
          // Dropping the last `Arc` flushes again, but nothing is left to write.
          assert At(flushed, f.path) + [] == At(flushed, f.path);
        } else {
          Release(f);
        }
      }
    }

    /** The start of `handle_client`: with a single output file every session begins bound
        to the trace "default"; otherwise it begins unbound. */
    method BindDefault(failing: set<string>) returns (r: Result<Option<TraceFile>, Failure>)
      requires Valid()
      modifies this`files, this`disk, this`handles, files.Values`refs
      ensures Valid()
      ensures old(handles) <= handles && fresh(handles - old(handles))
      ensures active == old(active) && dieWhenIdle == old(dieWhenIdle)
      ensures r.Ok? ==> Holds(r.value) && (r.value.Some? <==> intoFile.Some?)
      ensures intoFile.None? ==> r == Ok(None) && disk == old(disk) && files == old(files)
      ensures r.Err? <==> intoFile.Some? && "default" !in old(files) && TargetPath("default") in failing
      ensures r.Err? ==> r.error == CannotOpen(TargetPath("default"))
      ensures intoFile.Some? && r.Ok? ==>
        r.value.Some? && r.value.value.traceId == "default" && Mapped(r.value.value)
      ensures intoFile.Some? && "default" in old(files) ==>
        r == Ok(Some(old(files)["default"])) && files == old(files) && disk == old(disk)
      ensures intoFile.Some? && "default" !in old(files) && TargetPath("default") !in failing ==>
        var p := intoFile.value;
        r.Ok? && r.value.Some? && r.value.value.path == p && r.value.value.buffer == []
        && disk == Created(old(disk), p)
    {
      if intoFile.None? {
        return Ok(None);
      }
      var first := GetTraceFile("default", failing);
      if first.Err? {
        return Err(first.error);
      }
      return Ok(Some(first.value));
    }

    /** `handle_client`: the session reads the client's `input` line by line while the daemon is
        active. In single-file mode it starts bound to the trace "default", and fails at once when
        that cannot be opened. */
    method HandleClient(input: string, failing: set<string>) returns (r: Result<(), Failure>, nRead: nat, nErrors: nat)
      requires Valid()
      modifies this, handles
      ensures Valid()
      ensures nRead <= |SplitLines(input)|
      ensures nErrors == ParseErrors(Decoded(SplitLines(input))[..nRead])
      ensures dieWhenIdle == (old(dieWhenIdle) || Msg.DieWhenIdle in Decoded(SplitLines(input))[..nRead])
      ensures r.Ok? && nRead < |SplitLines(input)| ==> !active
      ensures r.Err? && 0 < nRead ==> var m := Decoded(SplitLines(input))[nRead - 1];
        m.Open? || ((m.Add? || m.EmitTef?) && r.error == NoTraceFile)
      ensures !old(active) ==> nRead == 0
      ensures intoFile.Some? && "default" !in old(files) && TargetPath("default") in failing ==>
        r == Err(CannotOpen(TargetPath("default"))) && nRead == 0
      ensures intoFile.Some? ==> r != Err(NoTraceFile)
      ensures (intoFile.Some? && "default" !in old(files) && TargetPath("default") !in failing
               && OnlyAdds(Decoded(SplitLines(input)))) ==>
        var msgs, p := Decoded(SplitLines(input)), intoFile.value;
        r.Ok? && (old(active) ==> nRead == |msgs|)
        && disk == old(disk)[p := At(old(disk), p) + AddedText(AddedJsons(msgs[..nRead]))]
      ensures (intoFile.Some? && "default" in old(files) && OnlyAdds(Decoded(SplitLines(input)))) ==>
        var msgs, p, g := Decoded(SplitLines(input)), intoFile.value, old(files)["default"];
        r.Ok? && (old(active) ==> nRead == |msgs|) && files == old(files)
        && disk == old(disk)[p := At(old(disk), p) + old(g.buffer) + AddedText(AddedJsons(msgs[..nRead]))]
      ensures Msg.Die in Decoded(SplitLines(input))[..nRead] ==> !active
    {
      var start := BindDefault(failing);
      if start.Err? {
        return Err(start.error), 0, 0;
      }
      ghost var afterOpen := disk;
      var msgs := Decoded(SplitLines(input));
      r, nRead, nErrors := Converse(msgs, start.value, failing);
      if intoFile.Some? && "default" !in old(files) && TargetPath("default") !in failing && OnlyAdds(msgs) {
        AppendAfterCreate(old(disk), intoFile.value, AddedText(AddedJsons(msgs[..nRead])));
      }
    }

    /** The loop of `handle_client` from its first line on, with `bound` as the session's
        binding. Decoding a line depends on that line alone, so the loop is given the messages the
        lines decode to. It ends when they run out, on `DIE`, or with the first error, after
        `nRead` of them. On a normal end the bound handle is flushed; either way the session's `Arc` is
        dropped. */
    method Converse(msgs: seq<Msg.Msg>, bound: Option<TraceFile>, failing: set<string>)
      returns (r: Result<(), Failure>, nRead: nat, nErrors: nat)
      requires Valid() && Holds(bound)
      modifies this, handles
      ensures Valid()
      ensures old(handles) <= handles && fresh(handles - old(handles))
      ensures nRead <= |msgs|
      ensures nErrors == ParseErrors(msgs[..nRead])
      ensures dieWhenIdle == (old(dieWhenIdle) || Msg.DieWhenIdle in msgs[..nRead])
      ensures r.Ok? && nRead < |msgs| ==> !active
      ensures r.Err? ==> 0 < nRead && var m := msgs[nRead - 1];
        m.Open? || ((m.Add? || m.EmitTef?) && r.error == NoTraceFile)
      ensures !old(active) ==> nRead == 0
      ensures bound.Some? ==> r != Err(NoTraceFile)
      ensures Msg.Die in msgs[..nRead] ==> !active
      ensures bound.Some? && OnlyAdds(msgs) ==> var f := bound.value;
        r.Ok? && (old(active) ==> nRead == |msgs|) && f.buffer == []
        && disk == old(disk)[f.path := At(old(disk), f.path) + old(f.buffer) + AddedText(AddedJsons(msgs[..nRead]))]
        && files == old(files) && handles == old(handles) && f.refs == old(f.refs) - 1
        && forall g :: g in handles && g != f ==> g.buffer == old(g.buffer) && g.refs == old(g.refs)
    {
      var binding, flow;
      binding, nRead, nErrors, flow := ReadLoop(msgs, bound, failing, bound.Some? && OnlyAdds(msgs));
      if flow.Fail? {
        Leave(binding, false);
        return Err(flow.why), nRead, nErrors;
      }
      Leave(binding, true);
      r := Ok(());
      if bound.Some? && OnlyAdds(msgs) {
        var f := bound.value;
        assert At(old(disk), f.path) + (old(f.buffer) + AddedText(AddedJsons(msgs[..nRead])))
            == At(old(disk), f.path) + old(f.buffer) + AddedText(AddedJsons(msgs[..nRead]));
      }
    }

    /** The `loop` of `handle_client`: messages are dispatched while the daemon is active, until
        they run out, `DIE` stops the loop (`break`), or one fails (`?`), after `nRead` of them.
        `adding` is a caller's ghost claim that the session is bound and no message rebinds,
        exports or kills; then the bound buffer grows by exactly the records read. */
    method ReadLoop(msgs: seq<Msg.Msg>, bound: Option<TraceFile>, failing: set<string>, ghost adding: bool)
      returns (binding: Option<TraceFile>, nRead: nat, nErrors: nat, flow: Flow)
      requires Valid() && Holds(bound)
      requires adding ==> bound.Some? && OnlyAdds(msgs)
      modifies this, handles
      ensures Valid() && Holds(binding)
      ensures old(handles) <= handles && fresh(handles - old(handles))
      ensures nRead <= |msgs|
      ensures nErrors == ParseErrors(msgs[..nRead])
      ensures dieWhenIdle == (old(dieWhenIdle) || Msg.DieWhenIdle in msgs[..nRead])
      ensures !flow.Fail? && nRead < |msgs| ==> !active
      ensures flow.Fail? ==> 0 < nRead && var m := msgs[nRead - 1];
        m.Open? || ((m.Add? || m.EmitTef?) && flow.why.NoTraceFile?)
      ensures !old(active) ==> nRead == 0
      ensures bound.Some? ==> binding.Some? && (flow.Fail? ==> flow.why.CannotOpen?)
      ensures Msg.Die in msgs[..nRead] ==> !active
      ensures flow.Stop? ==> 0 < nRead && msgs[nRead - 1].Die?
      ensures adding ==>
        binding == bound && flow.Continue? && (old(active) ==> nRead == |msgs|)
        && Grown(old(Snap()), bound.value, AddedText(AddedJsons(msgs[..nRead])))
    {
      binding, flow := bound, Continue;
      nRead, nErrors := 0, 0;
      ghost var s0, appended := Snap(), "";
      assert msgs[..0] == [];
      assert bound.Some? ==> bound.value.buffer == s0.buffers[bound.value] + appended;
      while nRead < |msgs| && active && flow.Continue?
        invariant Reading(msgs, nRead, bound, binding, nErrors, flow, s0, old(dieWhenIdle), adding, appended)
        invariant old(handles) <= handles && fresh(handles - old(handles))
        decreases |msgs| - nRead
      {
        binding, nErrors, flow, appended :=
          Turn(msgs, nRead, bound, binding, nErrors, failing, s0, old(dieWhenIdle), adding, appended);
        nRead := nRead + 1;
      }
    }

    /** `Dispatch` as the session loop sees it: the counters, the binding, how the loop goes
        on, and, for a message that neither rebinds, exports nor kills, that only the bound
        buffer changes, by the record appended. */
    method Receive(m: Msg.Msg, bound: Option<TraceFile>, nErrors: nat, failing: set<string>)
      returns (bound': Option<TraceFile>, nErrors': nat, flow: Flow)
      requires Valid() && Holds(bound)
      modifies this, handles
      ensures Valid() && Holds(bound')
      ensures old(handles) <= handles && fresh(handles - old(handles))
      ensures nErrors' == nErrors + (if m.ParseError? then 1 else 0)
      ensures dieWhenIdle == (old(dieWhenIdle) || m.DieWhenIdle?)
      ensures flow.Stop? <==> m.Die?
      ensures !m.Die? ==> active == old(active)
      ensures m.Die? ==>
        !active && files == map[] && handles == old(handles)
        && forall g :: g in old(handles) && g !in old(files).Values ==> g.refs == old(g.refs) && g.buffer == old(g.buffer)
      ensures flow.Fail? ==> bound' == bound && (m.Open? || ((m.Add? || m.EmitTef?) && flow.why.NoTraceFile?))
      ensures bound.Some? ==> bound'.Some? && (flow.Fail? ==> flow.why.CannotOpen?)
      ensures !m.Open? && !m.EmitTef? && !m.Die? ==>
        files == old(files) && handles == old(handles) && disk == old(disk)
        && forall g :: g in handles && Some(g) != bound ==> g.buffer == old(g.buffer) && g.refs == old(g.refs)
      ensures bound.Some? && !m.Open? && !m.EmitTef? && !m.Die? ==>
        flow.Continue? && bound' == bound && bound.value.refs == old(bound.value.refs)
        && bound.value.buffer == old(bound.value.buffer) + (if m.Add? then m.json + "\n" else "")
    {
      ghost var drained, writes;
      bound', nErrors', flow, drained, writes := Dispatch(m, bound, nErrors, failing);
      if bound.Some? && (m.Empty? || m.ParseError? || m.DieWhenIdle?) {
        assert bound.value in handles;
        assert bound.value.buffer + "" == bound.value.buffer;
      }
    }

    /** One turn of the session loop: `msgs[n]` is dispatched, and the loop invariant `Reading`
        goes from `n` messages read to `n + 1`, with `appended'` the text of the records read. */
    method Turn(msgs: seq<Msg.Msg>, n: nat, bound: Option<TraceFile>, binding: Option<TraceFile>, nErrors: nat,
                failing: set<string>, ghost s0: Snapshot, ghost idle: bool, ghost adding: bool, ghost appended: string)
      returns (binding': Option<TraceFile>, nErrors': nat, flow: Flow, ghost appended': string)
      requires n < |msgs| && active
      requires Reading(msgs, n, bound, binding, nErrors, Continue, s0, idle, adding, appended)
      modifies this, handles
      ensures Reading(msgs, n + 1, bound, binding', nErrors', flow, s0, idle, adding, appended')
      ensures old(handles) <= handles && fresh(handles - old(handles))
    {
      CountersSnoc(msgs, n);
      var m := msgs[n];
      ghost var tail := if m.Add? then m.json + "\n" else "";
      appended' := appended + tail;
      if adding {
        assert !m.Open? && !m.EmitTef? && !m.Die?;
        ConcatAssoc(s0.buffers[bound.value], appended, tail);
      }
      binding', nErrors', flow := Receive(m, binding, nErrors, failing);
    }

    /** A session that opens a trace `id` whose file is empty, adds the records `a` and `b` and
        asks for an export to `dst`, one message after another as `handle_client` dispatches
        them: the exported document is the TEF array of exactly those two records. */
    method TwoRecordExport(id: string, a: string, b: string, dst: string, failing: set<string>)
      requires Valid() && id !in files && At(disk, TargetPath(id)) == [] && TargetPath(id) !in failing
      requires dst != TargetPath(id) && dst !in failing && Accepted([a, b])
      modifies this, handles
      ensures At(disk, dst) == "[" + a + ",\n" + b + "]\n"
    {
      var p := TargetPath(id);
      var bound := OpenAddTwo(id, a, b, failing);
      var f := bound.value;
      ghost var flushed := disk[p := At(disk, p) + f.buffer];
      assert flushed[p] == AddedText([a, b]);
      var _, _, _, _, _ := Dispatch(Msg.EmitTef(dst), bound, 0, failing);
      ExportAppended(flushed, p, dst, [a, b], failing);
      FrameTwo(a, b);
    }

    /** The first three messages of that session: `Open(id)` creates the empty file, and the two
        `Add`s leave both records, each with its newline, in the bound handle's buffer. */
    method OpenAddTwo(id: string, a: string, b: string, failing: set<string>) returns (bound: Option<TraceFile>)
      requires Valid() && id !in files && At(disk, TargetPath(id)) == [] && TargetPath(id) !in failing
      modifies this, handles
      ensures Valid() && Holds(bound) && bound.Some?
      ensures bound.value.path == TargetPath(id) && bound.value.buffer == AddedText([a, b])
      ensures At(disk, TargetPath(id)) == []
      ensures old(handles) <= handles && fresh(handles - old(handles))
    {
      var p := TargetPath(id);
      var n, flow;
      ghost var drained, writes;
      bound, n, flow, drained, writes := Dispatch(Msg.Open(id), None, 0, failing);
      var f := bound.value;
      assert f.buffer == [] && At(disk, p) == [];
      bound, n, flow, drained, writes := Dispatch(Msg.Add(a), bound, n, failing);
      assert bound == Some(f) && f.buffer == [] + a + "\n";
      bound, n, flow, drained, writes := Dispatch(Msg.Add(b), bound, n, failing);
      assert bound == Some(f) && f.buffer == [] + a + "\n" + b + "\n";
      AddedTwo(a, b);
    }
  }
}
