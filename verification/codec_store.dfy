/** The older store `ConfigFile` builds: one JSON file checked by an io-ts
    codec through `cast`, written through the fixed temp file `path.tmp`,
    with no remapping of errors and no default value. Its serialization has
    no trailing newline. */
module CodecStore {
  import opened Js
  import opened FileSystem
  import opened Documents
  import opened Errors

  /** A store: its absolute path, the JSON functions (`parse` standing for
      `parse-json`) and `cast(codec, _)`, which returns the decoded value or
      fails with the message it throws. */
  datatype Store<!V> = Store(path: string, json: Json<V>, cast: V -> Result<V, string>)

  const NotAbsoluteMessage := "Expected \"path\" to be absolute"

  /** Node.js's POSIX `path.isAbsolute`. */
  predicate IsAbsolute(path: string) {
    |path| > 0 && path[0] == '/'
  }

  /** Casting a value the cast produced gives it back unchanged. */
  ghost predicate CastIdempotent<V(!new)>(cast: V -> Result<V, string>) {
    forall v :: cast(v).Success? ==> cast(cast(v).value) == cast(v)
  }

  /** Every value the cast accepts is returned as it is. */
  ghost predicate CastIsIdentity<V(!new)>(cast: V -> Result<V, string>) {
    forall v :: cast(v).Success? ==> cast(v).value == v
  }

  /** `ConfigFile(path, codec)`: only an absolute path gives a store. */
  function Create<V>(path: string, json: Json<V>, cast: V -> Result<V, string>): (r: Result<Store<V>, Error>)
    ensures r.Success? <==> IsAbsolute(path)
    ensures r.Success? ==> r.value.path == path && r.value.path[0] == '/'
    ensures r.Failure? ==> r.error == Failed(NotAbsoluteMessage)
  {
    if !IsAbsolute(path) then Failure(Failed(NotAbsoluteMessage))
    else Success(Store(path, json, cast))
  }

  /** `serialize`: `JSON.stringify(config, null, 2)`, with no newline added. */
  function Serialize<V>(json: Json<V>, v: V): (text: string)
    ensures text == json.stringify(v)
  {
    json.stringify(v)
  }

  /** The one temp file beside `path`. */
  function TempPath(path: string): (p: string)
    ensures p != path && |p| == |path| + 4
  {
    path + ".tmp"
  }

  /** `readRaw`: the file's text; a failed read is rethrown as it is. */
  function ReadRaw<V>(s: Store<V>, fs: Fs, f: Faults): (r: Result<string, Error>)
    ensures r.Success? <==> f.read.None? && s.path in fs.files
    ensures r.Success? ==> r.value == fs.files[s.path]
    ensures r.Failure? ==> r.error == Os(if f.read.Some? then f.read.value else NoEntry(s.path))
  {
    match ReadFile(fs, s.path, f.read)
    case Success(text) => Success(text)
    case Failure(e) => Failure(Os(e))
  }

  /** `writeRaw`: nothing is written when the file already holds `text`;
      otherwise `path.tmp` is written and renamed onto the path. No error is
      remapped. */
  function WriteRaw<V>(s: Store<V>, fs: Fs, text: string, f: Faults): (r: Effect<bool>)
    ensures r.result.Success? <==> WriteCompletes(fs, s.path, text, f)
    ensures !MustReplace(fs, s.path, text, f) && f.read.None? ==> r == Effect(Success(false), fs)
    ensures r.result == Success(false) ==> r.fs == fs && Content(fs, s.path) == Some(text)
    ensures r.result == Success(true) ==>
      && MustReplace(fs, s.path, text, f)
      && Content(r.fs, s.path) == Some(text)
      && TempPath(s.path) !in r.fs.files
    ensures SameExcept(fs, r.fs, {s.path, TempPath(s.path)})
    ensures r.result.Failure? ==> Content(r.fs, s.path) == Content(fs, s.path) && SameExcept(fs, r.fs, {TempPath(s.path)})
    // every error is an errno exception, rethrown as it is
    ensures r.result.Failure? ==> r.result.error.Os?
    ensures s.path in fs.files && f.read.Some? ==> r == Effect(Failure(Os(f.read.value)), fs)
    ensures MustReplace(fs, s.path, text, f) && f.writeTemp.Some? ==>
      && r.result == Failure(Os(f.writeTemp.value.error))
      && (f.writeTemp.value.written.None? ==> r.fs == fs)
      && (f.writeTemp.value.written.Some? ==> TempPath(s.path) in r.fs.files && r.fs.files[TempPath(s.path)] <= text)
    ensures MustReplace(fs, s.path, text, f) && f.writeTemp.None? && f.rename.Some? ==>
      && r.result == Failure(Os(f.rename.value))
      && (TempPath(s.path) in r.fs.files <==> f.unlink.Some?)
  {
    if s.path in fs.files && ReadRaw(s, fs, f).Failure? then
      Effect(Failure(ReadRaw(s, fs, f).error), fs)
    else if s.path in fs.files && ReadRaw(s, fs, f).value == text then
      Effect(Success(false), fs)
    else
      var r := Replace(fs, s.path, TempPath(s.path), text, f);
      match r.failure
      case None => Effect(Success(true), r.fs)
      case Some(failure) => Effect(Failure(Os(failure.cause)), r.fs)
  }

  /** `read`: parse the file's text, then cast it. */
  function Read<V>(s: Store<V>, fs: Fs, f: Faults): (r: Result<V, Error>)
    ensures r.Success? <==>
      && ReadRaw(s, fs, f).Success?
      && s.json.parse(fs.files[s.path]).Success?
      && s.cast(s.json.parse(fs.files[s.path]).value).Success?
    ensures r.Success? ==> s.cast(s.json.parse(fs.files[s.path]).value) == Success(r.value)
    ensures ReadRaw(s, fs, f).Failure? ==> r == Failure(ReadRaw(s, fs, f).error)
    ensures ReadRaw(s, fs, f).Success? && s.json.parse(fs.files[s.path]).Failure? ==>
      r == Failure(JsonError(s.json.parse(fs.files[s.path]).error))
    ensures ReadRaw(s, fs, f).Success? && s.json.parse(fs.files[s.path]).Success? ==>
      var doc := s.json.parse(fs.files[s.path]).value;
      s.cast(doc).Failure? ==> r == Failure(Failed(s.cast(doc).error))
  {
    var text :- ReadRaw(s, fs, f);
    match s.json.parse(text)
    case Failure(message) => Failure(JsonError(message))
    case Success(doc) =>
      match s.cast(doc)
      case Failure(message) => Failure(Failed(message))
      case Success(config) => Success(config)
  }

  /** `write`: cast first and serialize what the cast returned; a value the
      cast rejects is refused before the file system is touched. */
  function Write<V>(s: Store<V>, fs: Fs, v: V, f: Faults): (r: Effect<Written>)
    ensures s.cast(v).Failure? ==> r == Effect(Failure(Failed(s.cast(v).error)), fs)
    ensures r.result.Success? <==>
      s.cast(v).Success? && WriteCompletes(fs, s.path, Serialize(s.json, s.cast(v).value), f)
    ensures r.result.Success? ==>
      && r.result.value.serialized == Serialize(s.json, s.cast(v).value)
      && Content(r.fs, s.path) == Some(r.result.value.serialized)
      && (r.result.value.changed <==> MustReplace(fs, s.path, r.result.value.serialized, f))
    ensures r.result.Success? && !r.result.value.changed ==> r.fs == fs
    ensures r.result.Failure? ==> Content(r.fs, s.path) == Content(fs, s.path)
    ensures SameExcept(fs, r.fs, {s.path, TempPath(s.path)})
    // a cast value goes to `writeRaw`, whose file system and error are passed on as they are
    ensures s.cast(v).Success? ==>
      var w := WriteRaw(s, fs, Serialize(s.json, s.cast(v).value), f);
      r.fs == w.fs && (w.result.Failure? ==> r.result == Failure(w.result.error))
  {
    match s.cast(v)
    case Failure(message) => Effect(Failure(Failed(message)), fs)
    case Success(config) =>
      var serialized := Serialize(s.json, config);
      var w := WriteRaw(s, fs, serialized, f);
      match w.result
      case Success(changed) => Effect(Success(Written(changed, serialized)), w.fs)
      case Failure(e) => Effect(Failure(e), w.fs)
  }

  /** `remove`: unlink the file if there is one; `changed` says whether there was. */
  function Remove<V>(s: Store<V>, fs: Fs, f: Faults): (r: Effect<bool>)
    ensures r.result.Success? <==> s.path !in fs.files || f.unlink.None?
    ensures r.result.Success? ==>
      && (r.result.value <==> s.path in fs.files)
      && s.path !in r.fs.files
      && SameExcept(fs, r.fs, {s.path})
    ensures r.result.Failure? ==> r == Effect(Failure(Os(f.unlink.value)), fs)
  {
    if s.path in fs.files then
      match Unlink(fs, s.path, f.unlink)
      case Success(fs') => Effect(Success(true), fs')
      case Failure(e) => Effect(Failure(Os(e)), fs)
    else
      Effect(Success(false), fs)
  }

  /** `update`: `read` (a missing file throws, there is no default), let the
      updater edit the configuration, ignoring what it returns, then `write`. */
  function Update<V>(s: Store<V>, fs: Fs, updater: V -> Mutation<V>, f: Faults): (r: Effect<Written>)
    ensures s.path !in fs.files ==> r == Effect(Failure(Os(if f.read.Some? then f.read.value else NoEntry(s.path))), fs)
    ensures Read(s, fs, f).Failure? ==> r == Effect(Failure(Read(s, fs, f).error), fs)
    ensures Read(s, fs, f).Success? ==>
      var edited := updater(Read(s, fs, f).value).config;
      r == Write(s, fs, edited, f)
    ensures r.result.Success? ==>
      && Read(s, fs, f).Success?
      && var edited := updater(Read(s, fs, f).value).config;
      && s.cast(edited).Success?
      && Content(r.fs, s.path) == Some(s.json.stringify(s.cast(edited).value))
    ensures r.result.Failure? ==> Content(r.fs, s.path) == Content(fs, s.path)
  {
    match Read(s, fs, f)
    case Failure(e) => Effect(Failure(e), fs)
    case Success(config) => Write(s, fs, updater(config).config, f)
  }
}
