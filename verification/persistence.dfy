/** The persistence adapter: writes a full list of entries to a file through a codec and
    reads it back. */
module Persistence {
  import opened Errors
  import opened Values
  import opened FileSystem

  /** The serialization format, left abstract: a total encoder and a partial decoder. */
  datatype Codec = Codec(encode: seq<Entry> -> Bytes, decode: Bytes -> Option<seq<Entry>>)

  /** What the store relies on from its codec: decoding an encoding gives back the entries,
      and an encoding is never empty (a zero-length file is read as "no entries" without
      consulting the decoder). */
  ghost predicate Lawful(c: Codec)
  {
    forall d :: c.decode(c.encode(d)) == Some(d) && |c.encode(d)| > 0
  }

  /** Truncates (or creates) the file at `p` and writes the encoding of `data` into it. On
      success `p` holds exactly the encoding, whatever it held before, and no other path
      changes; the only failure is the operating system refusing to create the file. */
  function SaveToFile(fs: Fs, c: Codec, p: Path, data: seq<Entry>): (r: Result<Fs>)
    ensures r.Ok? <==> p !in fs.faults
    ensures r.Ok? ==> r.value.files.Keys == fs.files.Keys + {p}
    ensures r.Ok? ==> r.value.files[p] == c.encode(data)
    ensures r.Ok? ==> forall q :: q in fs.files && q != p ==> r.value.files[q] == fs.files[q]
    ensures r.Ok? ==> r.value.faults == fs.faults
    ensures r.Err? ==> r.error == IoError(fs.faults[p])
  {
    match Create(fs, p)
    case Err(e) => Err(e)
    case Ok(created) => Ok(Append(created, p, c.encode(data)))
  }

  /** Reads and decodes the file at `p`. I/O failures (including a missing file) are reported
      as `IoError` with their kind, an existing empty file reads as no entries, and bytes the
      codec rejects fail with `SerializationError` rather than giving any entries. */
  function LoadFromFile(fs: Fs, c: Codec, p: Path): (r: Result<seq<Entry>>)
    ensures p in fs.faults ==> r == Err(IoError(fs.faults[p]))
    ensures p !in fs.faults && p !in fs.files ==> r == Err(IoError(NotFound))
    ensures p !in fs.faults && p in fs.files && |fs.files[p]| == 0 ==> r == Ok([])
    ensures p !in fs.faults && p in fs.files && |fs.files[p]| > 0 ==>
              r == match c.decode(fs.files[p])
                   case None => Err(SerializationError)
                   case Some(d) => Ok(d)
    ensures r.Err? ==> r.error.IoError? || r.error.SerializationError?
  {
    match Read(fs, p)
    case Err(e) => Err(e)
    case Ok(bytes) =>
      if |bytes| == 0 then Ok([])
      else match c.decode(bytes)
        case None => Err(SerializationError)
        case Some(d) => Ok(d)
  }

  /** With a lawful codec, loading a file just saved gives back the saved entries. */
  lemma SaveLoadRoundTrip(fs: Fs, c: Codec, p: Path, data: seq<Entry>)
    requires Lawful(c)
    requires p !in fs.faults
    ensures SaveToFile(fs, c, p, data).Ok?
    ensures LoadFromFile(SaveToFile(fs, c, p, data).value, c, p) == Ok(data)
  {
  }
}
