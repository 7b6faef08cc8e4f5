/** Properties of the `ConfigFileSchema` store that relate several calls:
    round trips, write suppression, the `initialize` and `update` scenarios,
    and the invariant that no sequence of operations, whatever fails, leaves
    a partly written file behind. */
module SchemaProperties {
  import opened Js
  import opened FileSystem
  import opened Documents
  import opened Errors
  import opened SchemaStore

  /** A document some `write` may have produced: a valid value, serialized. */
  ghost predicate IsDocument<V(!new), E>(s: Store<V, E>, text: string) {
    exists v :: Valid(s, v) && text == Serialize(s.json, v)
  }

  /** What `serialize` produces parses back to the value serialized. */
  lemma SerializeRoundTrip<V(!new)>(json: Json<V>, v: V)
    requires RoundTripsWithNewline(json)
    ensures json.parse(Serialize(json, v)) == Success(v)
  {
  }

  /** A read after a successful write returns the value written. */
  lemma WriteThenRead<V(!new), E>(s: Store<V, E>, st: State<V, E>, v: V, suffix: string, f: Faults)
    requires RoundTripsWithNewline(s.json)
    requires Write(s, st, v, suffix, f).result.Success?
    ensures Read(s, Write(s, st, v, suffix, f).state, NoFaults).result == Success(v)
  {
    var w := Write(s, st, v, suffix, f);
    assert w.state.fs.files[s.path] == s.json.stringify(v) + "\n";
  }

  /** Writing the same value twice: the second write finds the file holding
      the same text, changes nothing and reports `changed == false`. */
  lemma WriteTwice<V, E>(s: Store<V, E>, st: State<V, E>, v: V, suffix1: string, suffix2: string, f: Faults)
    requires Write(s, st, v, suffix1, f).result.Success?
    ensures var first := Write(s, st, v, suffix1, f);
      var second := Write(s, first.state, v, suffix2, NoFaults);
      && (s.path !in st.fs.files ==> first.result.value.changed)
      && second.result == Success(Written(false, first.result.value.serialized))
      && second.state.fs == first.state.fs
  {
  }

  /** `remove` twice: the first reports whether there was a file, the second
      finds none; nothing but the file changes. */
  lemma RemoveTwice<V, E>(s: Store<V, E>, st: State<V, E>)
    ensures var first := Remove(s, st, NoFaults);
      && first.result == Success(s.path in st.fs.files)
      && first.state == st.(fs := Fs(st.fs.files - {s.path}))
      && Remove(s, first.state, NoFaults) == Step(Success(false), first.state)
  {
  }

  /** A value the validator rejects is rejected alike when written and when
      read back from a file that holds it, and ajv reports the same errors. */
  lemma ValidationSymmetry<V(!new), E>(s: Store<V, E>, st: State<V, E>, v: V, suffix: string, f: Faults)
    requires RoundTripsWithNewline(s.json)
    requires !Valid(s, v)
    requires Content(st.fs, s.path) == Some(Serialize(s.json, v))
    ensures Write(s, st, v, suffix, f).result.Failure?
    ensures Read(s, st, NoFaults).result.Failure?
    ensures GetErrors(Write(s, st, v, suffix, f).state) == GetErrors(Read(s, st, NoFaults).state) == Some(s.validate(v))
  {
    assert s.json.parse(st.fs.files[s.path]) == Success(v);
  }

  /** `getErrors` after validation: `null` once a write succeeded; the
      validator's errors for the document after a read that it rejected. */
  lemma ErrorsOfLastValidation<V, E>(s: Store<V, E>, st: State<V, E>, v: V, suffix: string, f: Faults)
    ensures Write(s, st, v, suffix, f).result.Success? ==> GetErrors(Write(s, st, v, suffix, f).state) == None
    ensures ReadParsed(s, st.fs, f).Success? && !Valid(s, ReadParsed(s, st.fs, f).value) ==>
      GetErrors(Read(s, st, f).state) == Some(s.validate(ReadParsed(s, st.fs, f).value))
  {
  }

  /** A missing file read without a default: with no ENOENT override the
      errno exception itself surfaces and its message names ENOENT; with one,
      its message and code. */
  lemma MissingFileWithoutDefault<V, E>(s: Store<V, E>, st: State<V, E>, updater: V -> Mutation<V>, suffix: string)
    requires !HasDefault(s, st) && s.path !in st.fs.files
    ensures s.enoent.None? ==>
      && Update(s, st, updater, suffix, NoFaults).result == Failure(Os(NoEntry(s.path)))
      && Contains(NoEntry(s.path).message, "ENOENT")
    ensures s.enoent == Some(Override(Some("bar"), Some("foo"))) ==>
      Read(s, st, NoFaults).result == Failure(Coded("bar", "foo"))
    ensures Update(s, st, updater, suffix, NoFaults).state.fs == st.fs
  {
    var message := NoEntry(s.path).message;
    assert "ENOENT" <= message[0..];
  }

  /** Permission denied: with an EACCES override, a read of the file and a
      write of the temp file both throw the override's message and code. */
  lemma PermissionDenied<V, E>(s: Store<V, E>, st: State<V, E>, osMessage: string, suffix: string)
    requires s.eacces == Some(Override(Some("bar"), Some("foo")))
    requires HasDefault(s, st) && Valid(s, st.initialValue.value)
    ensures s.path in st.fs.files ==>
      Read(s, st, Faults(Some(OsError(EACCES, osMessage)), None, None, None)).result == Failure(Coded("bar", "foo"))
    ensures s.path !in st.fs.files ==>
      var r := Initialize(s, st, suffix, Faults(None, Some(WriteFault(OsError(EACCES, osMessage), None)), None, None));
      r.result == Failure(Coded("bar", "foo")) && r.state.fs == st.fs
  {
  }

  /** An unparsable file: the parser's message reaches the caller through
      the `parseError` policy, and ajv's errors are left as they were. */
  lemma UnparsableFile<V, E>(s: Store<V, E>, st: State<V, E>, syntaxMessage: string)
    requires s.path in st.fs.files && s.json.parse(st.fs.files[s.path]) == Failure(syntaxMessage)
    ensures var r := Read(s, st, NoFaults);
      && r.result == Failure(ParseFailure(s.path, syntaxMessage, s.parseError))
      && r.state == st
    ensures s.parseError == Some(Override(None, None)) ==>
      Read(s, st, NoFaults).result == Failure(Coded(Unparsable(s.path) + syntaxMessage, "parseError"))
    ensures s.parseError == Some(Override(Some("NOT ABLE TO PARSE"), None)) ==>
      Read(s, st, NoFaults).result == Failure(Coded("NOT ABLE TO PARSE\n" + syntaxMessage, "parseError"))
  {
    assert "NOT ABLE TO PARSE" + "\n" + syntaxMessage == "NOT ABLE TO PARSE\n" + syntaxMessage;
  }

  /** `initialize` writes the default only where there is no file: a later
      read yields the default, and a second `initialize` changes nothing. */
  lemma InitializeThenRead<V(!new), E>(s: Store<V, E>, st: State<V, E>, suffix1: string, suffix2: string)
    requires RoundTripsWithNewline(s.json)
    requires st.initialValue.Some? && Valid(s, st.initialValue.value)
    requires s.path !in st.fs.files
    ensures var first := Initialize(s, st, suffix1, NoFaults);
      && first.result.Success?
      && Read(s, first.state, NoFaults).result == Success(st.initialValue.value)
      && Initialize(s, first.state, suffix2, NoFaults) == Step(Success(()), first.state)
  {
    var first := Initialize(s, st, suffix1, NoFaults);
    assert first.state.fs.files[s.path] == s.json.stringify(st.initialValue.value) + "\n";
  }

  /** `update` with a default and no file: the default goes to the updater,
      and an updater that leaves it alone writes exactly the default. */
  lemma UpdateFallsBackToDefault<V(!new), E>(s: Store<V, E>, st: State<V, E>, suffix: string)
    requires RoundTripsWithNewline(s.json)
    requires HasDefault(s, st) && Valid(s, st.initialValue.value)
    requires s.path !in st.fs.files
    ensures var r := Update(s, st, v => Mutation(v, false), suffix, NoFaults);
      && r.result == Success(Written(true, Serialize(s.json, st.initialValue.value)))
      && Read(s, r.state, NoFaults).result == Success(st.initialValue.value)
  {
    var r := Update(s, st, v => Mutation(v, false), suffix, NoFaults);
    assert r.state.fs.files[s.path] == s.json.stringify(st.initialValue.value) + "\n";
  }

  /** An updater that returns a value makes `update` throw and write nothing. */
  lemma UpdateRefusesReturnedValue<V(!new), E>(s: Store<V, E>, st: State<V, E>, updater: V -> Mutation<V>, suffix: string, f: Faults)
    requires forall v :: updater(v).returned
    ensures var r := Update(s, st, updater, suffix, f);
      && r.result.Failure?
      && r.state.fs == st.fs
      && (WorkingValue(s, st, f).result.Success? ==> r.result.error == Failed(MutateMessage))
  {
    var start := WorkingValue(s, st, f);
    if start.result.Success? {
      var c := start.result.value.config;
      assert updater(c).returned;
    }
  }

  /** `update` of an existing file with a default: the file's document, not
      the default, goes to the updater, and the file then holds the edit. The
      default is untouched, also by the source's `update`. */
  lemma UpdateEditsExistingFile<V(!new), E>(s: Store<V, E>, st: State<V, E>, updater: V -> Mutation<V>, doc: V, suffix: string)
    requires RoundTripsWithNewline(s.json)
    requires HasDefault(s, st)
    requires s.path in st.fs.files && s.json.parse(st.fs.files[s.path]) == Success(doc)
    requires Valid(s, doc) && s.json.truthy(doc)
    requires !updater(doc).returned && Valid(s, updater(doc).config)
    ensures var r := Update(s, st, updater, suffix, NoFaults);
      && r.result.Success?
      && Content(r.state.fs, s.path) == Some(Serialize(s.json, updater(doc).config))
      && Read(s, r.state, NoFaults).result == Success(updater(doc).config)
    ensures UpdateAsWritten(s, st, updater, suffix, NoFaults).state.initialValue == st.initialValue
  {
    assert WorkingValue(s, st, NoFaults).result == Success(Working(doc, false));
    var r := Update(s, st, updater, suffix, NoFaults);
    assert r.state.fs.files[s.path] == s.json.stringify(updater(doc).config) + "\n";
  }

  // ---------------------------------------------------------------------
  // The finding: `update` hands the caller's default to the updater by
  // reference.

  /** The object `{foo: ...}` of the source's tests. */
  datatype Settings = Settings(foo: string)

  const SettingsPrefix := "{\n  \"foo\": \""
  const SettingsSuffix := "\"\n}"

  /** A store of `{foo: ...}` objects that accepts every value, with the
      text `JSON.stringify(v, null, 2)` gives such an object and a parser
      for that text. */
  function DemoStore(): Store<Settings, string> {
    Store("/config.json",
          (v: Settings) => [],
          Json((t: string) =>
                 if |t| >= |SettingsPrefix| + |SettingsSuffix|
                    && t[..|SettingsPrefix|] == SettingsPrefix
                    && t[|t| - |SettingsSuffix|..] == SettingsSuffix
                 then Success(Settings(t[|SettingsPrefix|..|t| - |SettingsSuffix|]))
                 else Failure("Unexpected token"),
               (v: Settings) => SettingsPrefix + v.foo + SettingsSuffix,
               (v: Settings) => true,
               (v: Settings) => "[object Object]"),
          None, None, None)
  }

  /** The updater `config => { config.foo = 'bar'; }`. */
  function SetFooToBar(c: Settings): Mutation<Settings> {
    Mutation(c.(foo := "bar"), false)
  }

  /** The source's `update`: with the default `{foo: "foo"}` and no file, an
      update that sets `foo` to `"bar"` also edits the default, so after
      `remove` an `initialize` writes `{\n  "foo": "bar"\n}\n` instead of
      the configured `{\n  "foo": "foo"\n}\n`. */
  lemma UpdateAsWrittenEditsTheDefault()
    ensures var s := DemoStore();
      var st := State(Fs(map[]), None, Some(Settings("foo")));
      var u := UpdateAsWritten(s, st, SetFooToBar, "a", NoFaults);
      var gone := Remove(s, u.state, NoFaults);
      var init := Initialize(s, gone.state, "b", NoFaults);
      && u.result.Success?
      && Content(init.state.fs, s.path) == Some("{\n  \"foo\": \"bar\"\n}\n")
      && Content(init.state.fs, s.path) != Some(Serialize(s.json, Settings("foo")))
  {
    var s := DemoStore();
    var st := State(Fs(map[]), None, Some(Settings("foo")));
    var bar := Settings("bar");
    var u := UpdateAsWritten(s, st, SetFooToBar, "a", NoFaults);
    assert WorkingValue(s, st, NoFaults) == Step(Success(Working(Settings("foo"), true)), st);
    assert u.state.initialValue == Some(bar);
    assert u.result.Success?;
    assert Serialize(s.json, bar) == "{\n  \"foo\": \"bar\"\n}\n";
    var gone := Remove(s, u.state, NoFaults);
    assert s.path !in gone.state.fs.files;
    assert gone.state.initialValue == Some(bar);
    var init := Initialize(s, gone.state, "b", NoFaults);
    assert init.state == Write(s, gone.state, bar, "b", NoFaults).state;
    assert Content(init.state.fs, s.path) == Some("{\n  \"foo\": \"bar\"\n}\n");
    assert Serialize(s.json, Settings("foo")) == "{\n  \"foo\": \"foo\"\n}\n";
    assert "{\n  \"foo\": \"bar\"\n}\n"[12] != "{\n  \"foo\": \"foo\"\n}\n"[12];
  }

  /** The corrected `update`: whatever the updater does, a later `remove`
      and `initialize` write the configured default. */
  lemma UpdateKeepsTheDefault<V, E>(s: Store<V, E>, st: State<V, E>, updater: V -> Mutation<V>, suffix1: string, suffix2: string, f: Faults)
    requires st.initialValue.Some? && Valid(s, st.initialValue.value)
    ensures var u := Update(s, st, updater, suffix1, f);
      var gone := Remove(s, u.state, NoFaults);
      var init := Initialize(s, gone.state, suffix2, NoFaults);
      Content(init.state.fs, s.path) == Some(Serialize(s.json, st.initialValue.value))
  {
  }

  // ---------------------------------------------------------------------
  // Any sequence of operations keeps the file whole.

  /** One call of the validated surface of the store; `update` both as the
      source has it and corrected. */
  datatype Op<!V> =
    | ReadOp
    | ReadIfExistsOp
    | WriteOp(value: V, suffix: string)
    | RemoveOp
    | InitializeOp(suffix: string)
    | UpdateOp(updater: V -> Mutation<V>, suffix: string)
    | UpdateAsWrittenOp(updater: V -> Mutation<V>, suffix: string)

  /** A call, with the failures the environment injects into it. */
  datatype Call<!V> = Call(op: Op<V>, faults: Faults)

  /** The state after one call, whether it returned or threw. */
  function Apply<V, E>(s: Store<V, E>, st: State<V, E>, c: Call<V>): State<V, E> {
    match c.op
    case ReadOp => Read(s, st, c.faults).state
    case ReadIfExistsOp => ReadIfExists(s, st, c.faults).state
    case WriteOp(v, suffix) => Write(s, st, v, suffix, c.faults).state
    case RemoveOp => Remove(s, st, c.faults).state
    case InitializeOp(suffix) => Initialize(s, st, suffix, c.faults).state
    case UpdateOp(updater, suffix) => Update(s, st, updater, suffix, c.faults).state
    case UpdateAsWrittenOp(updater, suffix) => UpdateAsWritten(s, st, updater, suffix, c.faults).state
  }

  /** The state after the calls, in order. */
  function Run<V, E>(s: Store<V, E>, st: State<V, E>, calls: seq<Call<V>>): State<V, E>
    decreases |calls|
  {
    if |calls| == 0 then st else Run(s, Apply(s, st, calls[0]), calls[1..])
  }

  /** The file at `after` is absent, unchanged since `before`, or a whole
      document some write produced. */
  ghost predicate Whole<V(!new), E>(s: Store<V, E>, before: Fs, after: Fs) {
    || s.path !in after.files
    || Content(after, s.path) == Content(before, s.path)
    || IsDocument(s, after.files[s.path])
  }

  /** The files that are neither the store's file nor one of its temp files. */
  function Others<V, E>(s: Store<V, E>, fs: Fs): map<string, string> {
    map p | p in fs.files && p != s.path && !IsTempName(s.path, p) :: fs.files[p]
  }

  lemma OthersUnchanged<V, E>(s: Store<V, E>, a: Fs, b: Fs, suffix: string)
    requires SameExcept(a, b, {s.path, TempPath(s.path, suffix)})
    ensures Others(s, a) == Others(s, b)
  {
    var tmp := TempPath(s.path, suffix);
    forall p | p != s.path && !IsTempName(s.path, p)
      ensures (p in a.files <==> p in b.files) && (p in a.files ==> a.files[p] == b.files[p])
    {
      assert p != tmp;
      assert p in a.files - {s.path, tmp} <==> p in b.files - {s.path, tmp};
      if p in a.files {
        assert (a.files - {s.path, tmp})[p] == (b.files - {s.path, tmp})[p];
      }
    }
  }

  /** One call keeps the file whole and touches no other file. */
  lemma ApplyKeepsFileWhole<V(!new), E>(s: Store<V, E>, st: State<V, E>, c: Call<V>)
    ensures Whole(s, st.fs, Apply(s, st, c).fs)
    ensures Others(s, Apply(s, st, c).fs) == Others(s, st.fs)
  {
    var after := Apply(s, st, c).fs;
    match c.op
    case ReadOp =>
    case ReadIfExistsOp =>
    case WriteOp(v, suffix) =>
      OthersUnchanged(s, st.fs, after, suffix);
      var r := Write(s, st, v, suffix, c.faults);
      if r.result.Success? {
        assert Valid(s, v) && after.files[s.path] == Serialize(s.json, v);
      }
    case RemoveOp =>
      OthersUnchanged(s, st.fs, after, "");
    case InitializeOp(suffix) =>
      OthersUnchanged(s, st.fs, after, suffix);
      var r := Initialize(s, st, suffix, c.faults);
      if r.result.Success? && s.path !in st.fs.files {
        var init := st.initialValue.value;
        assert Write(s, st, init, suffix, c.faults).result.Success?;
        assert Valid(s, init) && after.files[s.path] == Serialize(s.json, init);
      }
    case UpdateOp(updater, suffix) =>
      OthersUnchanged(s, st.fs, after, suffix);
      var r := Update(s, st, updater, suffix, c.faults);
      if r.result.Success? {
        var edited := updater(WorkingValue(s, st, c.faults).result.value.config).config;
        assert Valid(s, edited) && after.files[s.path] == Serialize(s.json, edited);
      }
    case UpdateAsWrittenOp(updater, suffix) =>
      var r := Update(s, st, updater, suffix, c.faults);
      assert after == r.state.fs;
      OthersUnchanged(s, st.fs, after, suffix);
      if r.result.Success? {
        var edited := updater(WorkingValue(s, st, c.faults).result.value.config).config;
        assert Valid(s, edited) && after.files[s.path] == Serialize(s.json, edited);
      }
  }

  /** Whatever sequence of calls runs and whatever fails in it, the file is
      afterwards absent, as it was, or a whole valid document, and no file
      other than the store's own and its temp files has changed. */
  lemma {:induction false} RunKeepsFileWhole<V(!new), E>(s: Store<V, E>, st: State<V, E>, calls: seq<Call<V>>)
    ensures Whole(s, st.fs, Run(s, st, calls).fs)
    ensures Others(s, Run(s, st, calls).fs) == Others(s, st.fs)
    decreases |calls|
  {
    if |calls| > 0 {
      var next := Apply(s, st, calls[0]);
      ApplyKeepsFileWhole(s, st, calls[0]);
      RunKeepsFileWhole(s, next, calls[1..]);
      assert Run(s, st, calls) == Run(s, next, calls[1..]);
    }
  }
}
