/** The store `ConfigFileSchema` builds: one JSON file checked by an ajv
    validate function, written through a uniquely named temp file, with
    optional `CodedError` overrides for missing files, denied permissions and
    unparsable content. Each operation is a function from the state before
    the call (and the failures the environment injects) to the state after
    it and what the call returned or threw. */
module SchemaStore {
  import opened Js
  import opened FileSystem
  import opened Documents
  import opened Errors

  /** The fixed parts of a store: the resolved path, ajv's validate function
      (the error objects it reports for a value, none when the value
      conforms), the JSON functions and the caller's overrides. */
  datatype Store<!V, E> = Store(
    path: string,
    validate: V -> seq<E>,
    json: Json<V>,
    enoent: Option<Override>,
    eacces: Option<Override>,
    parseError: Option<Override>)

  /** What the operations can change: the file system, ajv's `validate.errors`
      (`None` is `null`), and the caller's `initialValue` object. */
  datatype State<V, E> = State(fs: Fs, errors: Option<seq<E>>, initialValue: Option<V>)

  /** The state after an operation, with what it returned or threw. */
  datatype Step<+R, V, E> = Step(result: Result<R, Error>, state: State<V, E>)

  /** The value `update` hands to the updater, and whether it is the default. */
  datatype Working<V> = Working(config: V, isDefault: bool)

  const InitializeMessage := "\"initialize\" can only be called if \"initialValue\" is provided"
  const MutateMessage := "Updater returned a value. Mutate the passed configuration instead."

  predicate Valid<V, E>(s: Store<V, E>, v: V) {
    |s.validate(v)| == 0
  }

  /** `serialize`: the stringified value followed by exactly one newline. */
  function Serialize<V>(json: Json<V>, v: V): (text: string)
    ensures |text| == |json.stringify(v)| + 1 && text[|text| - 1] == '\n'
    ensures text[..|text| - 1] == json.stringify(v)
  {
    json.stringify(v) + "\n"
  }

  /** The shape of the temp names `path.<suffix>.tmp`. */
  predicate IsTempName(path: string, p: string) {
    && |path| + 5 <= |p|
    && p[..|path| + 1] == path + "."
    && p[|p| - 4..] == ".tmp"
  }

  /** The temp file beside `path`; `suffix` stands for `RandomString()`. */
  function TempPath(path: string, suffix: string): (p: string)
    ensures p != path
    ensures IsTempName(path, p)
  {
    var p := path + "." + suffix + ".tmp";
    assert p[..|path| + 1] == path + ".";
    assert p[|p| - 4..] == ".tmp";
    p
  }

  /** `readRaw`: the file's text; a failed read is remapped by the overrides. */
  function ReadRaw<V, E>(s: Store<V, E>, fs: Fs, f: Faults): (r: Result<string, Error>)
    ensures r.Success? <==> f.read.None? && s.path in fs.files
    ensures r.Success? ==> r.value == fs.files[s.path]
    ensures f.read.Some? ==> r == Failure(RemapRead(f.read.value, s.enoent, s.eacces))
    ensures f.read.None? && s.path !in fs.files ==> r == Failure(RemapRead(NoEntry(s.path), s.enoent, s.eacces))
  {
    match ReadFile(fs, s.path, f.read)
    case Success(text) => Success(text)
    case Failure(e) => Failure(RemapRead(e, s.enoent, s.eacces))
  }

  /** Replace the file by `text` through the temp file `path.<suffix>.tmp`;
      a temp-write failure is remapped, a rename failure is not. */
  function ReplaceTarget<V, E>(s: Store<V, E>, fs: Fs, text: string, suffix: string, f: Faults): Effect<bool> {
    var r := Replace(fs, s.path, TempPath(s.path, suffix), text, f);
    match r.failure
    case None => Effect(Success(true), r.fs)
    case Some(TempWriteFailed(e)) => Effect(Failure(RemapWrite(e, s.eacces)), r.fs)
    case Some(RenameFailed(e)) => Effect(Failure(Os(e)), r.fs)
  }

  /** `writeRaw`: nothing is written when the file already holds `text`;
      otherwise the temp file is written and renamed onto the path. */
  function WriteRaw<V, E>(s: Store<V, E>, fs: Fs, text: string, suffix: string, f: Faults): (r: Effect<bool>)
    ensures r.result.Success? <==> WriteCompletes(fs, s.path, text, f)
    // suppression: same content, no change
    ensures !MustReplace(fs, s.path, text, f) && f.read.None? ==> r == Effect(Success(false), fs)
    ensures r.result == Success(false) ==> r.fs == fs && Content(fs, s.path) == Some(text)
    // replacement: the file holds the text and the temp file is gone
    ensures r.result == Success(true) ==>
      && MustReplace(fs, s.path, text, f)
      && Content(r.fs, s.path) == Some(text)
      && TempPath(s.path, suffix) !in r.fs.files
    ensures SameExcept(fs, r.fs, {s.path, TempPath(s.path, suffix)})
    // failures: the target is as before
    ensures r.result.Failure? ==> Content(r.fs, s.path) == Content(fs, s.path) && SameExcept(fs, r.fs, {TempPath(s.path, suffix)})
    ensures s.path in fs.files && f.read.Some? ==> r == Effect(Failure(RemapRead(f.read.value, s.enoent, s.eacces)), fs)
    ensures MustReplace(fs, s.path, text, f) && f.writeTemp.Some? ==>
      && r.result == Failure(RemapWrite(f.writeTemp.value.error, s.eacces))
      && (f.writeTemp.value.written.None? ==> r.fs == fs)
      && (f.writeTemp.value.written.Some? ==> TempPath(s.path, suffix) in r.fs.files && r.fs.files[TempPath(s.path, suffix)] <= text)
    ensures MustReplace(fs, s.path, text, f) && f.writeTemp.None? && f.rename.Some? ==>
      && r.result == Failure(Os(f.rename.value))
      && (TempPath(s.path, suffix) in r.fs.files <==> f.unlink.Some?)
  {
    if s.path in fs.files then
      match ReadRaw(s, fs, f)
      case Failure(e) => Effect(Failure(e), fs)
      case Success(current) =>
        if current == text then Effect(Success(false), fs)
        else ReplaceTarget(s, fs, text, suffix, f)
    else
      ReplaceTarget(s, fs, text, suffix, f)
  }

  /** `readParsed`: the file's text parsed; a syntax error follows the
      `parseError` policy. */
  function ReadParsed<V, E>(s: Store<V, E>, fs: Fs, f: Faults): (r: Result<V, Error>)
    ensures r.Success? <==> ReadRaw(s, fs, f).Success? && s.json.parse(ReadRaw(s, fs, f).value).Success?
    ensures r.Success? ==> s.json.parse(fs.files[s.path]) == Success(r.value)
    ensures ReadRaw(s, fs, f).Failure? ==> r == Failure(ReadRaw(s, fs, f).error)
    ensures ReadRaw(s, fs, f).Success? && s.json.parse(ReadRaw(s, fs, f).value).Failure? ==>
      r == Failure(ParseFailure(s.path, s.json.parse(ReadRaw(s, fs, f).value).error, s.parseError))
  {
    var text :- ReadRaw(s, fs, f);
    match s.json.parse(text)
    case Success(doc) => Success(doc)
    case Failure(message) => Failure(ParseFailure(s.path, message, s.parseError))
  }

  /** `read`: the parsed document, provided the validator accepts it. */
  function Read<V, E>(s: Store<V, E>, st: State<V, E>, f: Faults): (r: Step<V, V, E>)
    ensures r.state.fs == st.fs && r.state.initialValue == st.initialValue
    ensures r.result.Success? <==> ReadParsed(s, st.fs, f).Success? && Valid(s, ReadParsed(s, st.fs, f).value)
    ensures r.result.Success? ==>
      && s.path in st.fs.files
      && s.json.parse(st.fs.files[s.path]) == Success(r.result.value)
      && Valid(s, r.result.value)
      && r.state.errors == None
    // an unreadable or unparsable file is reported before validation, which leaves ajv's errors alone
    ensures ReadParsed(s, st.fs, f).Failure? ==> r == Step(Failure(ReadParsed(s, st.fs, f).error), st)
    ensures ReadParsed(s, st.fs, f).Success? && !Valid(s, ReadParsed(s, st.fs, f).value) ==>
      && r.result == Failure(Failed("Validation of " + s.path + " failed!"))
      && r.state.errors == Some(s.validate(ReadParsed(s, st.fs, f).value))
  {
    match ReadParsed(s, st.fs, f)
    case Failure(e) => Step(Failure(e), st)
    case Success(doc) =>
      if Valid(s, doc) then Step(Success(doc), st.(errors := None))
      else Step(Failure(Failed("Validation of " + s.path + " failed!")), st.(errors := Some(s.validate(doc))))
  }

  /** `exists`: a plain existence check, not a readability check. */
  function Exists<V, E>(s: Store<V, E>, st: State<V, E>): (b: bool)
    ensures b <==> ReadFile(st.fs, s.path, None).Success?
  {
    s.path in st.fs.files
  }

  /** `readIfExists`: `undefined` when there is no file, else `read()` with
      its errors. */
  function ReadIfExists<V, E>(s: Store<V, E>, st: State<V, E>, f: Faults): (r: Step<Option<V>, V, E>)
    ensures r.state.fs == st.fs && r.state.initialValue == st.initialValue
    ensures r.result == Success(None) <==> s.path !in st.fs.files
    ensures s.path !in st.fs.files ==> r.state == st
    ensures r.result.Success? && r.result.value.Some? ==>
      Read(s, st, f) == Step(Success(r.result.value.value), r.state)
    ensures r.result.Failure? ==>
      s.path in st.fs.files && Read(s, st, f) == Step(Failure(r.result.error), r.state)
  {
    if !Exists(s, st) then Step(Success(None), st)
    else
      var r := Read(s, st, f);
      match r.result
      case Success(v) => Step(Success(Some(v)), r.state)
      case Failure(e) => Step(Failure(e), r.state)
  }

  /** `write`: validate, serialize, `writeRaw`; an invalid value is refused
      before the file system is touched. */
  function Write<V, E>(s: Store<V, E>, st: State<V, E>, v: V, suffix: string, f: Faults): (r: Step<Written, V, E>)
    ensures r.state.initialValue == st.initialValue
    ensures !Valid(s, v) ==>
      r == Step(Failure(Failed("Validation of " + s.json.show(v) + " failed!")), st.(errors := Some(s.validate(v))))
    ensures Valid(s, v) ==> r.state.errors == None
    ensures r.result.Success? <==> Valid(s, v) && WriteCompletes(st.fs, s.path, Serialize(s.json, v), f)
    ensures r.result.Success? ==>
      && r.result.value.serialized == Serialize(s.json, v)
      && Content(r.state.fs, s.path) == Some(r.result.value.serialized)
      && (r.result.value.changed <==> MustReplace(st.fs, s.path, r.result.value.serialized, f))
    ensures r.result.Success? && !r.result.value.changed ==> r.state.fs == st.fs
    ensures r.result.Failure? ==> Content(r.state.fs, s.path) == Content(st.fs, s.path)
    ensures SameExcept(st.fs, r.state.fs, {s.path, TempPath(s.path, suffix)})
    // a valid value goes to `writeRaw`, whose file system and error are passed on as they are
    ensures Valid(s, v) ==>
      var w := WriteRaw(s, st.fs, Serialize(s.json, v), suffix, f);
      r.state.fs == w.fs && (w.result.Failure? ==> r.result == Failure(w.result.error))
  {
    if !Valid(s, v) then
      Step(Failure(Failed("Validation of " + s.json.show(v) + " failed!")), st.(errors := Some(s.validate(v))))
    else
      var serialized := Serialize(s.json, v);
      var w := WriteRaw(s, st.fs, serialized, suffix, f);
      var st' := State(w.fs, None, st.initialValue);
      match w.result
      case Success(changed) => Step(Success(Written(changed, serialized)), st')
      case Failure(e) => Step(Failure(e), st')
  }

  /** `remove`: unlink the file if there is one; `changed` says whether there was. */
  function Remove<V, E>(s: Store<V, E>, st: State<V, E>, f: Faults): (r: Step<bool, V, E>)
    ensures r.state == st.(fs := r.state.fs)
    ensures r.result.Success? <==> s.path !in st.fs.files || f.unlink.None?
    ensures r.result.Success? ==>
      && (r.result.value <==> s.path in st.fs.files)
      && s.path !in r.state.fs.files
      && SameExcept(st.fs, r.state.fs, {s.path})
    ensures r.result.Failure? ==> r == Step(Failure(Os(f.unlink.value)), st)
  {
    if s.path in st.fs.files then
      match Unlink(st.fs, s.path, f.unlink)
      case Success(fs') => Step(Success(true), st.(fs := fs'))
      case Failure(e) => Step(Failure(Os(e)), st)
    else
      Step(Success(false), st)
  }

  /** `initialize`: refuse without a default; otherwise write the default
      unless there already is a file. */
  function Initialize<V, E>(s: Store<V, E>, st: State<V, E>, suffix: string, f: Faults): (r: Step<(), V, E>)
    ensures st.initialValue.None? ==> r == Step(Failure(Failed(InitializeMessage)), st)
    ensures st.initialValue.Some? && s.path in st.fs.files ==> r == Step(Success(()), st)
    ensures st.initialValue.Some? && s.path !in st.fs.files ==>
      var w := Write(s, st, st.initialValue.value, suffix, f);
      && r.state == w.state
      && (r.result.Success? <==> w.result.Success?)
      && (r.result.Failure? ==> r.result.error == w.result.error)
    ensures r.result.Success? ==> s.path in r.state.fs.files
    ensures r.result.Failure? ==> Content(r.state.fs, s.path) == Content(st.fs, s.path)
    ensures r.state.initialValue == st.initialValue
    ensures SameExcept(st.fs, r.state.fs, {s.path, TempPath(s.path, suffix)})
  {
    if st.initialValue.None? then Step(Failure(Failed(InitializeMessage)), st)
    else if Exists(s, st) then Step(Success(()), st)
    else
      var w := Write(s, st, st.initialValue.value, suffix, f);
      match w.result
      case Success(_) => Step(Success(()), w.state)
      case Failure(e) => Step(Failure(e), w.state)
  }

  /** `if (opts.initialValue)`: a default is configured and truthy. */
  predicate HasDefault<V, E>(s: Store<V, E>, st: State<V, E>) {
    st.initialValue.Some? && s.json.truthy(st.initialValue.value)
  }

  /** The value `update` starts from: with a default, `readIfExists() ||
      initialValue`; without one, `read()`. */
  function WorkingValue<V, E>(s: Store<V, E>, st: State<V, E>, f: Faults): (r: Step<Working<V>, V, E>)
    ensures r.state.fs == st.fs && r.state.initialValue == st.initialValue
    ensures HasDefault(s, st) && s.path !in st.fs.files ==>
      r == Step(Success(Working(st.initialValue.value, true)), st)
    // `readIfExists() || initialValue` on an existing file: a read error
    // propagates, a truthy document is used, a falsy one gives way to the default
    ensures HasDefault(s, st) && s.path in st.fs.files ==>
      && r.state == Read(s, st, f).state
      && (Read(s, st, f).result.Failure? ==> r.result == Failure(Read(s, st, f).result.error))
      && (Read(s, st, f).result.Success? ==>
            var v := Read(s, st, f).result.value;
            r.result == Success(if s.json.truthy(v) then Working(v, false) else Working(st.initialValue.value, true)))
    ensures !HasDefault(s, st) ==> r.state == Read(s, st, f).state
    ensures !HasDefault(s, st) && Read(s, st, f).result.Failure? ==> r.result == Failure(Read(s, st, f).result.error)
    ensures !HasDefault(s, st) && Read(s, st, f).result.Success? ==>
      r.result == Success(Working(Read(s, st, f).result.value, false))
    ensures !HasDefault(s, st) && s.path !in st.fs.files && f.read.None? ==>
      r.result == Failure(RemapRead(NoEntry(s.path), s.enoent, s.eacces))
    ensures r.result.Success? && r.result.value.isDefault ==>
      HasDefault(s, st) && r.result.value.config == st.initialValue.value
    ensures r.result.Success? && !r.result.value.isDefault ==>
      && s.path in st.fs.files
      && s.json.parse(st.fs.files[s.path]) == Success(r.result.value.config)
      && Valid(s, r.result.value.config)
  {
    if HasDefault(s, st) then
      var found := ReadIfExists(s, st, f);
      match found.result
      case Failure(e) => Step(Failure(e), found.state)
      case Success(v) =>
        if v.Some? && s.json.truthy(v.value) then Step(Success(Working(v.value, false)), found.state)
        else Step(Success(Working(st.initialValue.value, true)), found.state)
    else
      var current := Read(s, st, f);
      match current.result
      case Failure(e) => Step(Failure(e), current.state)
      case Success(v) => Step(Success(Working(v, false)), current.state)
  }

  /** `update` after the starting value is known: refuse a returned value,
      otherwise write the mutated configuration. */
  function Finish<V, E>(s: Store<V, E>, st: State<V, E>, m: Mutation<V>, suffix: string, f: Faults): Step<Written, V, E> {
    if m.returned then Step(Failure(Failed(MutateMessage)), st)
    else Write(s, st, m.config, suffix, f)
  }

  /** `update` as the source has it: the default is handed to the updater by
      reference, so the updater's edits land in the caller's `initialValue`,
      also when the updater then returns a value and `update` throws. */
  function UpdateAsWritten<V, E>(s: Store<V, E>, st: State<V, E>, updater: V -> Mutation<V>, suffix: string, f: Faults): (r: Step<Written, V, E>)
    ensures HasDefault(s, st) && s.path !in st.fs.files ==>
      r.state.initialValue == Some(updater(st.initialValue.value).config)
    ensures !HasDefault(s, st) ==> r.state.initialValue == st.initialValue
    // in every other respect it is the corrected `update`
    ensures r.result == Update(s, st, updater, suffix, f).result
    ensures r.state.fs == Update(s, st, updater, suffix, f).state.fs
    // the default is replaced by the edit exactly when the default was the
    // working value: no file, or a falsy document in it
    ensures r.state == Update(s, st, updater, suffix, f).state.(initialValue :=
      if WorkingValue(s, st, f).result.Success? && WorkingValue(s, st, f).result.value.isDefault
      then Some(updater(st.initialValue.value).config)
      else st.initialValue)
  {
    var start := WorkingValue(s, st, f);
    match start.result
    case Failure(e) => Step(Failure(e), start.state)
    case Success(w) =>
      var m := updater(w.config);
      var st' := if w.isDefault then start.state.(initialValue := Some(m.config)) else start.state;
      Finish(s, st', m, suffix, f)
  }

  /** `update` with the default copied rather than shared: the starting value
      goes to the updater, a returned value is refused before anything is
      written, and the mutated configuration is written. The default stays
      as configured. */
  function Update<V, E>(s: Store<V, E>, st: State<V, E>, updater: V -> Mutation<V>, suffix: string, f: Faults): (r: Step<Written, V, E>)
    ensures r.state.initialValue == st.initialValue
    ensures WorkingValue(s, st, f).result.Failure? ==>
      r.result == Failure(WorkingValue(s, st, f).result.error) && r.state.fs == st.fs
    ensures WorkingValue(s, st, f).result.Success? ==>
      var m := updater(WorkingValue(s, st, f).result.value.config);
      && (m.returned ==> r.result == Failure(Failed(MutateMessage)) && r.state.fs == st.fs)
      && (!m.returned ==> r == Write(s, WorkingValue(s, st, f).state, m.config, suffix, f))
    // success: the file holds the updater's configuration, which the validator accepted
    ensures r.result.Success? ==>
      && WorkingValue(s, st, f).result.Success?
      && var edited := updater(WorkingValue(s, st, f).result.value.config).config;
      && Valid(s, edited)
      && r.result.value.serialized == Serialize(s.json, edited)
      && Content(r.state.fs, s.path) == Some(r.result.value.serialized)
    ensures r.result.Failure? ==> Content(r.state.fs, s.path) == Content(st.fs, s.path)
    ensures SameExcept(st.fs, r.state.fs, {s.path, TempPath(s.path, suffix)})
    // nothing is written after a failed working value or a refused updater:
    // ajv's errors stay as the working value's read left them
    ensures var w := WorkingValue(s, st, f);
      (w.result.Failure? || updater(w.result.value.config).returned) ==> r.state == w.state
  {
    var start := WorkingValue(s, st, f);
    match start.result
    case Failure(e) => Step(Failure(e), start.state)
    case Success(w) => Finish(s, start.state, updater(w.config), suffix, f)
  }

  /** `getErrors`: ajv's errors from the most recent validation. */
  function GetErrors<V, E>(st: State<V, E>): (errors: Option<seq<E>>)
    ensures errors == st.errors
  {
    st.errors
  }
}
