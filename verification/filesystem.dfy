/** An abstract file system: the files that exist, with their bytes, and the paths on which
    the operating system reports an error (permission denied, a missing directory, ...). */
module FileSystem {
  import opened Errors

  newtype byte = b: int | 0 <= b < 0x100

  type Bytes = seq<byte>

  type Path = string

  datatype Fs = Fs(files: map<Path, Bytes>, faults: map<Path, IoErrorKind>)

  /** Opens `p` and reads all of it. A faulting path fails with its error; a path with no
      file fails with `NotFound`. */
  function Read(fs: Fs, p: Path): Result<Bytes>
  {
    if p in fs.faults then Err(IoError(fs.faults[p]))
    else if p !in fs.files then Err(IoError(NotFound))
    else Ok(fs.files[p])
  }

  /** Creates `p` as an empty file, truncating it if it already exists. */
  function Create(fs: Fs, p: Path): Result<Fs>
  {
    if p in fs.faults then Err(IoError(fs.faults[p]))
    else Ok(fs.(files := fs.files[p := []]))
  }

  /** Writes `b` at the end of the open file `p`. */
  function Append(fs: Fs, p: Path, b: Bytes): Fs
    requires p in fs.files
  {
    fs.(files := fs.files[p := fs.files[p] + b])
  }
}
