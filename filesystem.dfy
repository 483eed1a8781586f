/** The part of the filesystem the transcoders touch: regular files by path,
    and at most one staged temporary file (renameio's PendingFile) that is
    either promoted onto its target path in one atomic step or discarded.
    Temporary-file naming, directories, fsync and permissions are not
    modelled. */
module Files {
  import opened Wire

  /** A staged temporary file and the path it will replace. */
  datatype Pending = Pending(target: string, data: seq<byte>)

  class FileSystem {
    var files: map<string, seq<byte>>
    var pending: Option<Pending>

    constructor (files: map<string, seq<byte>>)
      ensures this.files == files && pending == None
    {
      this.files := files;
      pending := None;
    }

    /** `os.Stat(path)` succeeds exactly when the path exists. */
    method Stat(path: string) returns (found: bool)
      ensures found <==> path in files
    {
      found := path in files;
    }

    /** The bytes an opened file yields when read to the end. */
    method ReadAll(path: string) returns (content: seq<byte>)
      requires path in files
      ensures content == files[path]
    {
      content := files[path];
    }

    /** `renameio.TempFile(dir, target)`: a new, empty staged file. */
    method CreateTemp(target: string)
      requires pending == None
      modifies this
      ensures files == old(files)
      ensures pending == Some(Pending(target, []))
    {
      pending := Some(Pending(target, []));
    }

    /** Bytes reaching the staged file (a flush of the buffer over it). */
    method WritePending(bytes: seq<byte>)
      requires pending.Some?
      modifies this
      ensures files == old(files)
      ensures pending == Some(Pending(old(pending.value.target), old(pending.value.data) + bytes))
    {
      pending := Some(Pending(pending.value.target, pending.value.data + bytes));
    }

    /** `CloseAtomicallyReplace`: the target path now holds exactly the
        staged bytes, in one step; nothing else changes. */
    method CloseAtomicallyReplace()
      requires pending.Some?
      modifies this
      ensures files == old(files)[old(pending.value.target) := old(pending.value.data)]
      ensures pending == None
    {
      files := files[pending.value.target := pending.value.data];
      pending := None;
    }

    /** `Cleanup`: discards a staged file that was not promoted (a no-op
        after promotion). */
    method Cleanup()
      modifies this
      ensures files == old(files)
      ensures pending == None
    {
      pending := None;
    }

    /** `os.Remove(path)` of a path that exists. */
    method Remove(path: string)
      requires path in files
      modifies this
      ensures files == old(files) - {path}
      ensures pending == old(pending)
    {
      files := files - {path};
    }
  }
}
