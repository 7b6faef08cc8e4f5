# Single-file JSON configuration stores, modelled in Dafny

This project models the two factories of alwaysai's `config-nodejs`. Each one builds a store for one JSON configuration file:

- `ConfigFileSchema` (`src/config-file-schema.ts`) checks values with an ajv validate function. It writes through a temp file with a random suffix. It turns missing-file, permission and parse failures into `CodedError`s using the caller's overrides. It can fall back on an `initialValue`.
- `ConfigFile` (`src/config-file.ts`) is the older variant. It checks values with an io-ts `cast`, requires an absolute path, writes through the fixed temp file `<path>.tmp`, rethrows every error unchanged, and serializes without a trailing newline.

Every store operation is a pure function. It maps the state before the call, plus the failures the environment injects into it, to the state after the call, plus what the call returned or threw.

- `FileSystem`: the file system is a map from path to content. The Node.js calls `readFileSync`, `mkdirp` + `writeFileSync`, `renameSync` and `unlinkSync` each take an optional injected errno failure (`Faults`). Both stores use the temp-then-rename replacement, defined once as `FileSystem.Replace`.
- `Documents`: `JSON.parse` / `parse-json`, `JSON.stringify(v, null, 2)`, JavaScript truthiness and `${v}` are opaque. They arrive as fields of a `Json` record. What the proofs need of them is stated as predicates (`RoundTrips`, `RoundTripsWithNewline`), and the lemmas take those as preconditions. The ajv validate function is a function from a value to its error objects (valid means no errors). The io-ts cast is a function to `Result`, with the assumptions `CastIdempotent` and `CastIsIdentity`. An updater callback is a function returning a `Mutation`: the configuration after its in-place edits, and whether it returned something other than `undefined`.
- `Errors`: the thrown exceptions, the `{message?, code?}` overrides, and the remapping and parse-error policies of `config-file-schema.ts`. The JavaScript `||` fallbacks are written out as truthiness of optional strings.
- `SchemaStore` / `SchemaProperties`: `ConfigFileSchema`. Its state holds the file system, ajv's `validate.errors` (read by `getErrors`) and the caller's `initialValue` object.
- `CodecStore` / `CodecProperties`: `ConfigFile`.

`SchemaProperties.RunKeepsFileWhole` states the crash-safety invariant. Any sequence of `read`, `readIfExists`, `write`, `remove`, `initialize` and `update` calls (both the source's `update` and the corrected one, see Findings), with any injected failures, leaves the file in one of three states: absent, as it was, or a whole document that the validator accepts. No file other than the store's own file and its temp files changes.

Some facts about the code that the model keeps:

- `ConfigFile` writes no trailing newline.
- Validation failures throw a plain `Error("Validation of … failed!")`, and the structured errors are available only through `getErrors`.
- A missing default makes `initialize` throw a plain `Error`.
- `update` falls back to the default with `||` (truthiness), not `??`.
- The updater edits its argument in place, and its return value must be `undefined`.

## Model

| member | source | states |
|---|---|---|
| `FileSystem.Replace` | src/config-file-schema.ts:131-159 | Success means the target holds the text, the temp file is gone, and nothing else changed. Every failure leaves the target exactly as it was and changes nothing but the temp file. A failed temp write is reported. It changes nothing if it failed before the file was opened; otherwise the temp file keeps the prefix of the text that reached it. After a successful temp write, a failed rename is the error reported, even when the cleanup unlink also fails, and the temp file survives, whole, only if that unlink failed. |
| `Errors.Remapped` | src/config-file-schema.ts:104-114 | The message is the first truthy of the override message, the OS message and the fallback. The code is the override code if truthy, otherwise the fallback code. |
| `Errors.RemapRead` | src/config-file-schema.ts:102-117 | The result is a `CodedError` exactly when the error is ENOENT with an ENOENT override, or EACCES with an EACCES override. Every other error is rethrown unchanged. Remapped errors always have a non-empty message and code, with the defaults "File not found"/"ENOENT" and "Permission not granted on file"/"EACCES". |
| `Errors.RemapWrite` | src/config-file-schema.ts:134-145 | A failed temp write is remapped only for EACCES with an override, in the same way as a read. |
| `Errors.ParseFailure` | src/config-file-schema.ts:168-178 | Without `parseError`, the raw `SyntaxError` is thrown. With it, the result is a `CodedError` whose message ends with the parser's message. A configured message (even an empty one) is followed by "\n" and that message. Otherwise the "Contents of <path> could not be parsed…" text is used. The code is the override's code if truthy, else "parseError". |
| `SchemaStore.Serialize` | src/config-file-schema.ts:18-21 | The text is the stringified value followed by exactly one newline. Its partner is `SchemaProperties.SerializeRoundTrip`. |
| `SchemaStore.TempPath` | src/config-file-schema.ts:130 | The temp path is never the target and has the shape `<path>.<suffix>.tmp`. |
| `SchemaStore.ReadRaw` | src/config-file-schema.ts:98-120 | A read succeeds exactly when the file exists and no read failure is injected, and it returns the file's content. A failure is the remapped OS error, including the "no such file" error of a missing file. |
| `SchemaStore.WriteRaw` | src/config-file-schema.ts:122-161 | If the file already holds the text, nothing is touched and the result is `changed=false`. Otherwise the file ends up holding the text and the temp file is gone. The comparison read can throw the remapped read error. Temp-write failures are remapped, and may leave a partial temp file. A rename failure is rethrown and the temp file is removed unless the unlink fails. On any failure the target is unchanged. Success happens exactly when `WriteCompletes`. |
| `SchemaStore.ReadParsed` | src/config-file-schema.ts:163-180 | Read errors pass through. Success is exactly a parse of the file's content. A syntax error follows the `parseError` policy. |
| `SchemaStore.Read` | src/config-file-schema.ts:182-188 | The file system never changes. Success means the document parsed from the file was accepted, and `errors` becomes null. A rejected document throws "Validation of <path> failed!" and sets `errors` to the validator's errors. Read and parse errors leave `errors` alone. |
| `SchemaStore.Exists` | src/config-file-schema.ts:190-192 | Existence means a fault-free read would succeed. |
| `SchemaStore.ReadIfExists` | src/config-file-schema.ts:194-197 | With no file, the result is `undefined` and nothing changes. Otherwise the result is exactly `read()`'s value or error. |
| `SchemaStore.Write` | src/config-file-schema.ts:199-206 | An invalid value throws before anything touches disk and sets `errors`. On success, `serialized` is the stringified value plus "\n", the file holds exactly `serialized`, and `changed` holds exactly when the file had to be replaced. On failure the target is unchanged. For a valid value, the file system and any error of `writeRaw` are passed on unchanged. Only the target and its temp file can change. |
| `SchemaStore.Remove` | src/config-file-schema.ts:208-217 | `changed` holds exactly when the file existed. Afterwards the file is gone and nothing else changed. An unlink failure is rethrown and the state is unchanged. |
| `SchemaStore.Initialize` | src/config-file-schema.ts:219-228 | Without a default it throws before the file is inspected. With an existing file it does nothing. Otherwise it is `write(initialValue)`: the same state, success exactly when the write succeeds, and the write's error when it fails. |
| `SchemaStore.WorkingValue` | src/config-file-schema.ts:231-236 | With a truthy default it is `readIfExists() \|\| initialValue`: the default when there is no file, and otherwise `read()`'s error, or its document when that is truthy, or the default when it is falsy. Without a default it is `read()`, its value or its error, so a missing file throws the remapped ENOENT error. A value taken from the file parsed from it and was accepted by the validator. |
| `SchemaStore.UpdateAsWritten` | src/config-file-schema.ts:230-246 | As written in the source: the state is that of the corrected `SchemaStore.Update`, except for the caller's `initialValue`. That is replaced by the updater's edit exactly when the default was the working value, that is, with a truthy default and either no file or a falsy document in it. The replacement happens even when the updater returns a value and `update` throws. In every other case the default is unchanged. The result is that of `SchemaStore.Update`. |
| `SchemaStore.Update` | src/config-file-schema.ts:230-246 | Errors from the working value propagate. An updater that returns a value throws "Updater returned a value…" and nothing is written. Otherwise the result is `write` of the edited configuration, so on success the file holds a valid serialization of it. The target is unchanged on failure and the default is never changed. After a failed working value or a refused updater, the state, including ajv's errors, is the one the working value's read left. |
| `SchemaStore.GetErrors` | src/config-file-schema.ts:248-250 | It returns ajv's `validate.errors` as the last validation left them. What they are after each operation is stated by `SchemaStore.Read`, `SchemaStore.Write`, `SchemaStore.WorkingValue` and `SchemaStore.Update`, and tied together by `SchemaProperties.ErrorsOfLastValidation`. |
| `SchemaProperties.SerializeRoundTrip` | src/config-file-schema.ts:18-21 | When the parser reads a stringified value followed by a newline back as the value, it reads back what `serialize` produced. |
| `SchemaProperties.WriteThenRead` | tests/config-file-schema.test.ts:100-104 | A read after a successful `write(v)` returns `v`. |
| `SchemaProperties.WriteTwice` | tests/config-file-schema.test.ts:57-62 | The first write of a new file reports `changed=true`. An immediate repeat reports `changed=false` with the same `serialized` and leaves the file system unchanged. |
| `SchemaProperties.RemoveTwice` | src/config-file-schema.ts:208-217 | The first remove reports whether the file existed and deletes only it. The second reports `changed=false`. |
| `SchemaProperties.ValidationSymmetry` | src/config-file-schema.ts:182-206 | A value the validator rejects is rejected by `write`, and also by `read` of a file holding it. Both leave the same errors for `getErrors`. |
| `SchemaProperties.ErrorsOfLastValidation` | tests/config-file-schema.test.ts:116-134 | `getErrors` is null after a successful write. After a read the validator rejected, it returns the validator's errors for the parsed document. |
| `SchemaProperties.MissingFileWithoutDefault` | tests/config-file-schema.test.ts:91-98 | Without a default or an override, `update` of a missing file throws the errno exception, whose message contains "ENOENT", and writes nothing. With an ENOENT override, `read` throws the override's message and code. |
| `SchemaProperties.PermissionDenied` | tests/config-file-schema.test.ts:144-178 | With an EACCES override `{code: 'foo', message: 'bar'}`, a denied read and a denied temp write during `initialize` both throw `CodedError('bar', 'foo')`. The file system is unchanged. |
| `SchemaProperties.UnparsableFile` | tests/config-file-schema.test.ts:186-241 | `read` of an unparsable file throws the parse-error policy's error and leaves the state unchanged. The tests' two configurations give the default message and the "NOT ABLE TO PARSE\n…" message. |
| `SchemaProperties.InitializeThenRead` | tests/config-file-schema.test.ts:106-114 | `initialize` on a missing file succeeds, and `read` then yields the default. A second `initialize` changes nothing. |
| `SchemaProperties.UpdateFallsBackToDefault` | tests/config-file-schema.test.ts:81-85 | With a default and no file, `update(() => undefined)` writes exactly the default's serialization, and `read` then yields the default. |
| `SchemaProperties.UpdateEditsExistingFile` | tests/config-file-schema.test.ts:73-79 | With a default and an existing file holding a valid, truthy document, `update` hands that document to the updater and the file then holds the edit, which `read` returns. The source's `update` leaves the default unchanged in this case. |
| `SchemaProperties.UpdateRefusesReturnedValue` | tests/config-file-schema.test.ts:87-89 | An updater that returns a value makes `update` throw the "Mutate…" error and leaves the file system unchanged. |
| `SchemaProperties.UpdateAsWrittenEditsTheDefault` | src/config-file-schema.ts:232-238 | Counterexample: with the default `{foo: "foo"}` and no file, the updater `config => { config.foo = 'bar' }`, followed by `remove` and `initialize`, leaves `{\n  "foo": "bar"\n}\n` in the file, not `{\n  "foo": "foo"\n}\n`. |
| `SchemaProperties.UpdateKeepsTheDefault` | src/config-file-schema.ts:219-246 | With the corrected `update`, a later `remove` and `initialize` always write the configured default. |
| `SchemaProperties.ApplyKeepsFileWhole` | src/config-file-schema.ts:182-246 | One call of any operation, including the source's `update` and the corrected one, with any injected failures, leaves the file absent, unchanged or a valid document, and touches no other file. |
| `SchemaProperties.RunKeepsFileWhole` | src/config-file-schema.ts:122-246 | The same holds for any sequence of calls, by induction on the sequence. |
| `CodecStore.Create` | src/config-file.ts:20-23 | A store is produced exactly for an absolute path. Otherwise the call throws "Expected \"path\" to be absolute". |
| `CodecStore.Serialize` | src/config-file.ts:15-18 | The text is `JSON.stringify(config, null, 2)` with no newline added. Its partner is `CodecProperties.SerializeRoundTrip`. |
| `CodecStore.TempPath` | src/config-file.ts:40 | The fixed temp path `<path>.tmp` is never the target. |
| `CodecStore.ReadRaw` | src/config-file.ts:27-30 | A read succeeds exactly when the file exists and no failure is injected. Errors are the OS errors, unchanged. |
| `CodecStore.WriteRaw` | src/config-file.ts:32-53 | This has the same suppression and replacement guarantees as the schema variant, through `<path>.tmp`, including a partial temp file after a failed temp write. Every error is an errno exception rethrown unchanged, and the rename error wins over the unlink error. |
| `CodecStore.Read` | src/config-file.ts:55-60 | Success is exactly a parse followed by a cast that succeeds, and the result is the cast's value. Parse errors and cast errors are thrown as they are. |
| `CodecStore.Write` | src/config-file.ts:62-67 | A cast failure throws before the file system is touched. On success, `serialized` is the stringified cast result with no newline added, and the file holds exactly that. Otherwise the file system and the errno exception of `writeRaw` are passed on unchanged. |
| `CodecStore.Remove` | src/config-file.ts:69-78 | `changed` holds exactly when the file existed. The file is gone afterwards. Unlink errors are rethrown with no change. |
| `CodecStore.Update` | src/config-file.ts:80-85 | There is no default: a missing file throws and nothing is written. The updater's return value is ignored. The result is `write` of the edited value, so on success the file holds the stringified cast of the edit. |
| `CodecProperties.SerializeRoundTrip` | src/config-file.ts:15-18 | When the parser reads a stringified value back as the value, it reads back what `serialize` produced. |
| `CodecProperties.WriteThenRead` | src/config-file.test.ts:51-55 | A read after `write(v)` returns the cast of `v`. It returns `v` itself when the cast is the identity on the values it accepts. |
| `CodecProperties.WriteTwice` | src/config-file.test.ts:30-35 | A repeated write reports `changed=false` and changes nothing. |
| `CodecProperties.RemoveTwice` | src/config-file.ts:69-78 | The first remove reports whether the file existed. The second reports `changed=false`. |
| `CodecProperties.UpdateWritesStringifiedEdit` | src/config-file.test.ts:43-49 | After `update` of a readable file whose edit the cast accepts, `update` succeeds and the file holds exactly the stringified cast edit, with no trailing newline. |
| `CodecProperties.UpdateNeedsFile` | src/config-file.ts:80-85 | `update` of a missing file throws the ENOENT errno exception and writes nothing. |
| `CodecProperties.RelativePathRejected` | src/config-file.ts:20-23 | A relative path is refused with the source's message, and an absolute one is accepted. |

## Left out

- Real file-system calls are not modelled. The file system is a map from path to content; directories (`mkdirp`, `dirname`) and permissions (`chmod`) are not represented. Failures are injected per operation through `Faults`. A failed temp write either happened before the file was opened or left a prefix of the text. The same `read` fault applies to every `readFileSync` in one operation. The atomicity of `renameSync` is assumed, not proved.
- `existsSync` is modelled as "the path is in the map". Its `false` answer for an unreadable parent directory is expressed only through the injected faults.
- `RandomString()` (`Math.random().toString(36)`) is a parameter, the temp suffix.
- `JSON.parse`, `parse-json`, `JSON.stringify`, ajv and the io-ts `cast` are foreign libraries. They are opaque functions, and the properties that need them state their assumptions as preconditions. Syntax-error texts that depend on the Node.js version are opaque strings. A missing file's errno message is modelled with Node.js's "ENOENT: no such file or directory, open '<path>'" shape.
- `resolve(opts.path)` in `ConfigFileSchema`: the store's path is taken as already resolved. `isAbsolute` is the POSIX one; Windows paths are not modelled.
- `isErrnoException` duck-typing: every file-system failure is modelled as an errno exception with a code. Errors without a code are not modelled.
- Override codes, typed `any` in the source, are modelled as optional strings (falsy: undefined or empty). Non-string codes are not modelled.
- An `initialValue` of `null` (which passes `typeof … === 'undefined'`) is not distinguished from other values.
- The returned object's `validate` and `path` members are the store's parameters, not operations.
- Exceptions thrown by the updater callback itself are not modelled.
- Concurrency between processes is not modelled: the code takes no locks, and the last writer wins.
- `src/index.test.ts`, and tests that call the factories with options the shown sources do not accept (`tests/config-file.test.ts`, `src/config-file-schema.test.ts`), are not modelled.
- `CodecStore.TempPath`: its contract states only that the temp path differs from the target (by its length). Collisions with an unrelated existing `<path>.tmp` file are overwritten as `writeFileSync` would.

## Findings

| source | as written | input that shows it | evidently intended | confidence | as-written member | corrected member |
|---|---|---|---|---|---|---|
| src/config-file-schema.ts:232-237 | `config = readIfExists() \|\| opts.initialValue` hands the caller's default object itself to the updater, so its in-place edits change `opts.initialValue` for every later `update` and `initialize`. This happens even when the updater then returns a value and `update` throws. | Default `{foo: "foo"}` and no file, then `update(c => { c.foo = "bar" })`, then `remove()`, then `initialize()`: the file holds `{\n  "foo": "bar"\n}\n`, not `{\n  "foo": "foo"\n}\n`. | The default stays as configured: the updater edits a copy. | medium (not executed) | `SchemaStore.UpdateAsWritten`, `SchemaProperties.UpdateAsWrittenEditsTheDefault` | `SchemaStore.Update`, `SchemaProperties.UpdateKeepsTheDefault` |
