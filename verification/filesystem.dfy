/** An abstract file system for the single-file stores: the files by path,
    the four Node.js calls the stores make on it (`readFileSync`,
    `writeFileSync` after `mkdirp`, `renameSync`, `unlinkSync`), and the
    temp-then-rename replacement both stores use to write their file.
    Failures are not produced by the model: the environment injects them per
    operation through `Faults`. */
module FileSystem {
  import opened Js

  /** The `code` of a Node.js errno exception, as far as the stores tell them apart. */
  datatype ErrorCode = ENOENT | EACCES | OtherCode(name: string)

  /** An errno exception thrown by a file-system call. */
  datatype OsError = OsError(code: ErrorCode, message: string)

  /** The files, by absolute path. Directories are not modelled. */
  datatype Fs = Fs(files: map<string, string>)

  /** A failed `mkdirp` + `writeFileSync` of a temp file: the error, and how
      many characters had reached the file when it failed. `written` is `None`
      when the failure came before the file was opened (`mkdirp`, `open`);
      otherwise `writeFileSync`, which does not clean up, leaves the file
      holding that much of the text. */
  datatype WriteFault = WriteFault(error: OsError, written: Option<nat>)

  /** The failures the environment injects into one store operation; `None`
      means that call succeeds. `read` applies to every `readFileSync` of the
      operation, `writeTemp` to creating the directory and writing the temp file. */
  datatype Faults = Faults(
    read: Option<OsError>,
    writeTemp: Option<WriteFault>,
    rename: Option<OsError>,
    unlink: Option<OsError>)

  const NoFaults: Faults := Faults(None, None, None, None)

  /** What a path holds, `None` when there is no file there. */
  function Content(fs: Fs, path: string): Option<string> {
    if path in fs.files then Some(fs.files[path]) else None
  }

  /** Two file systems that agree on every path outside `paths`. */
  predicate SameExcept(a: Fs, b: Fs, paths: set<string>) {
    a.files - paths == b.files - paths
  }

  /** Whether a write of `text` to `path` has to replace the file: there is
      no file, or the comparison read succeeds and finds other content. */
  predicate MustReplace(fs: Fs, path: string, text: string, f: Faults) {
    path !in fs.files || (f.read.None? && fs.files[path] != text)
  }

  /** Whether a write of `text` to `path` returns rather than throws: the
      comparison read of an existing file succeeds, and a needed replacement
      gets through the temp write and the rename. */
  predicate WriteCompletes(fs: Fs, path: string, text: string, f: Faults) {
    && (path in fs.files ==> f.read.None?)
    && (MustReplace(fs, path, text, f) ==> f.writeTemp.None? && f.rename.None?)
  }

  /** The exception Node.js raises when a file to open does not exist. */
  function NoEntry(path: string): OsError {
    OsError(ENOENT, "ENOENT: no such file or directory, open '" + path + "'")
  }

  /** `readFileSync(path, 'utf8')`. */
  function ReadFile(fs: Fs, path: string, fault: Option<OsError>): Result<string, OsError> {
    if fault.Some? then Failure(fault.value)
    else if path !in fs.files then Failure(NoEntry(path))
    else Success(fs.files[path])
  }

  /** `mkdirp.sync(dirname(path))` followed by `writeFileSync(path, text)`;
      a failure reports the error and the file system it left behind. */
  function WriteFile(fs: Fs, path: string, text: string, fault: Option<WriteFault>): Result<Fs, (OsError, Fs)> {
    if fault.None? then Success(Fs(fs.files[path := text]))
    else
      match fault.value.written
      case None => Failure((fault.value.error, fs))
      case Some(n) => Failure((fault.value.error, Fs(fs.files[path := text[..if n < |text| then n else |text|]])))
  }

  /** `renameSync(from, to)`: one step that replaces `to` by `from`. */
  function Rename(fs: Fs, from: string, to: string, fault: Option<OsError>): Result<Fs, OsError> {
    if fault.Some? then Failure(fault.value)
    else if from !in fs.files then Failure(NoEntry(from))
    else Success(Fs((fs.files - {from})[to := fs.files[from]]))
  }

  /** `unlinkSync(path)`. */
  function Unlink(fs: Fs, path: string, fault: Option<OsError>): Result<Fs, OsError> {
    if fault.Some? then Failure(fault.value)
    else if path !in fs.files then Failure(NoEntry(path))
    else Success(Fs(fs.files - {path}))
  }

  /** The step of the replacement that failed. */
  datatype ReplaceError = TempWriteFailed(cause: OsError) | RenameFailed(cause: OsError)

  datatype Replaced = Replaced(failure: Option<ReplaceError>, fs: Fs)

  /** Write `text` to `tmp`, then rename `tmp` onto `target`; when the rename
      fails, unlink `tmp` and report the rename's error, also when the unlink
      fails too (its error is dropped by the rethrow in `finally`). A reader
      of `target` sees either the old content or `text`, never a part of it. */
  function Replace(fs: Fs, target: string, tmp: string, text: string, f: Faults): (r: Replaced)
    requires tmp != target
    // success: the target holds the text, the temp file is gone, nothing else changed
    ensures r.failure.None? <==> f.writeTemp.None? && f.rename.None?
    ensures r.failure.None? ==>
      && Content(r.fs, target) == Some(text)
      && tmp !in r.fs.files
      && SameExcept(fs, r.fs, {target, tmp})
    // every failure leaves the target exactly as it was
    ensures r.failure.Some? ==> Content(r.fs, target) == Content(fs, target) && SameExcept(fs, r.fs, {tmp})
    // a failed temp write is reported; the temp file may keep what reached it
    ensures f.writeTemp.Some? ==>
      && r.failure == Some(TempWriteFailed(f.writeTemp.value.error))
      && (f.writeTemp.value.written.None? ==> r.fs == fs)
      && (f.writeTemp.value.written.Some? ==> tmp in r.fs.files && r.fs.files[tmp] <= text)
    // a failed rename is what is reported, and the temp file survives only if the unlink failed too
    ensures f.writeTemp.None? && f.rename.Some? ==>
      && r.failure == Some(RenameFailed(f.rename.value))
      && (tmp in r.fs.files <==> f.unlink.Some?)
      && (tmp in r.fs.files ==> r.fs.files[tmp] == text)
  {
    match WriteFile(fs, tmp, text, f.writeTemp)
    case Failure((e, partial)) => Replaced(Some(TempWriteFailed(e)), partial)
    case Success(written) =>
      match Rename(written, tmp, target, f.rename)
      case Success(renamed) => Replaced(None, renamed)
      case Failure(e) =>
        var cleaned := match Unlink(written, tmp, f.unlink)
          case Success(removed) => removed
          case Failure(_) => written;
        Replaced(Some(RenameFailed(e)), cleaned)
  }
}
