/** Properties of the `ConfigFile` store that relate several calls. */
module CodecProperties {
  import opened Js
  import opened FileSystem
  import opened Documents
  import opened Errors
  import opened CodecStore

  /** What `serialize` produces parses back to the value serialized. */
  lemma SerializeRoundTrip<V(!new)>(json: Json<V>, v: V)
    requires RoundTrips(json)
    ensures json.parse(Serialize(json, v)) == Success(v)
  {
  }

  /** A read after a successful write returns what the cast made of the
      value written, and the value itself when the cast changes nothing. */
  lemma WriteThenRead<V(!new)>(s: Store<V>, fs: Fs, v: V, f: Faults)
    requires RoundTrips(s.json) && CastIdempotent(s.cast)
    requires Write(s, fs, v, f).result.Success?
    ensures Read(s, Write(s, fs, v, f).fs, NoFaults) == Success(s.cast(v).value)
    ensures CastIsIdentity(s.cast) ==> Read(s, Write(s, fs, v, f).fs, NoFaults) == Success(v)
  {
    var written := Write(s, fs, v, f).fs;
    var config := s.cast(v).value;
    assert written.files[s.path] == s.json.stringify(config);
    assert s.json.parse(written.files[s.path]) == Success(config);
  }

  /** Writing the same value twice: the second write changes nothing and
      reports `changed == false`. */
  lemma WriteTwice<V>(s: Store<V>, fs: Fs, v: V, f: Faults)
    requires Write(s, fs, v, f).result.Success?
    ensures var first := Write(s, fs, v, f);
      var second := Write(s, first.fs, v, NoFaults);
      && (s.path !in fs.files ==> first.result.value.changed)
      && second == Effect(Success(Written(false, first.result.value.serialized)), first.fs)
  {
  }

  /** `remove` twice: the first reports whether there was a file, the second
      finds none. */
  lemma RemoveTwice<V>(s: Store<V>, fs: Fs)
    ensures var first := Remove(s, fs, NoFaults);
      && first.result == Success(s.path in fs.files)
      && Remove(s, first.fs, NoFaults) == Effect(Success(false), first.fs)
  {
  }

  /** `update` on a file holding a document: the file afterwards holds
      exactly the stringified edit, with no newline added. */
  lemma UpdateWritesStringifiedEdit<V>(s: Store<V>, fs: Fs, updater: V -> Mutation<V>, expected: string)
    requires Read(s, fs, NoFaults).Success?
    requires var edited := updater(Read(s, fs, NoFaults).value).config;
      s.cast(edited).Success? && s.json.stringify(s.cast(edited).value) == expected
    ensures Update(s, fs, updater, NoFaults).result.Success?
    ensures Content(Update(s, fs, updater, NoFaults).fs, s.path) == Some(expected)
  {
  }

  /** `update` without a file throws ENOENT and never writes. */
  lemma UpdateNeedsFile<V>(s: Store<V>, fs: Fs, updater: V -> Mutation<V>)
    requires s.path !in fs.files
    ensures Update(s, fs, updater, NoFaults) == Effect(Failure(Os(NoEntry(s.path))), fs)
    ensures Contains(NoEntry(s.path).message, "ENOENT")
  {
    assert "ENOENT" <= NoEntry(s.path).message[0..];
  }

  /** A relative path gives no store. */
  lemma RelativePathRejected<V>(json: Json<V>, cast: V -> Result<V, string>)
    ensures Create("config.json", json, cast) == Failure(Failed(NotAbsoluteMessage))
    ensures Create("/etc/config.json", json, cast).Success?
  {
  }
}
