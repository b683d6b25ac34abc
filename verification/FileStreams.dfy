/** pgen/io/file_stream.h: stdio on one file, as a byte sequence and a position. */
module FileStreams {
  import opened Bytes
  import opened Exceptions

  /** `open_mode` of pgen/io/stream.h. */
  datatype Mode = PcapRead | PcapWrite | PcapngRead | PcapngWrite | Netif

  /** A file's bytes; a path that cannot be opened is `null` where a `File?` is expected. */
  class File {
    var bytes: seq<byte>
  }

  class FileStream {
    var file: File?
    var pos: nat

    ghost predicate IsOpen()
      reads this, file
    {
      file != null && pos <= |file.bytes|
    }

    /** What is left to read. */
    function Rest(): (s: seq<byte>)
      requires IsOpen()
      reads this, file
    {
      file.bytes[pos..]
    }

    constructor ()
      ensures file == null
    {
      file, pos := null, 0;
    }

    /** `fopen`; the modes "wb" and "rb" differ in whether the file is emptied. */
    method Fopen(f: File?, write: bool) returns (o: Outcome)
      modifies this, f
      ensures o.Pass? <==> f != null
      ensures file == f && pos == 0
      ensures f != null ==> f.bytes == if write then [] else old(f.bytes)
    {
      file, pos := f, 0;
      if f == null {
        return Fail(FileError);
      }
      if write {
        f.bytes := [];
      }
      return Pass;
    }

    /** `fwrite(buf, buflen, 1, _fd)`: an item of no bytes is never written, and that counts as an error. */
    method Write(buf: seq<byte>) returns (o: Outcome)
      requires IsOpen() && pos == |file.bytes|
      modifies this, file
      ensures file == old(file) && IsOpen() && pos == |file.bytes|
      ensures o.Pass? <==> buf != []
      ensures file.bytes == old(file.bytes) + buf
    {
      if buf == [] {
        return Fail(FileError);
      }
      file.bytes := file.bytes + buf;
      pos := pos + |buf|;
      return Pass;
    }

    /**
     * `fread(buf, n, 1, _fd)` into `buf` at `off`. An item of no bytes is never read; a
     * short item moves the position to the end.
     */
    method Read(buf: array<byte>, off: nat, n: nat) returns (o: Outcome)
      requires IsOpen() && off + n <= buf.Length
      modifies this`pos, buf
      ensures IsOpen()
      ensures o.Pass? <==> 0 < n <= |old(Rest())|
      ensures o.Fail? ==> o.error == FileError
      ensures pos == if n == 0 then old(pos) else if o.Pass? then old(pos) + n else |file.bytes|
      ensures buf[..] == Splice(old(buf[..]), off, if n <= |old(Rest())| then old(Rest())[..n] else old(Rest()))
    {
      var left := |file.bytes| - pos;
      var m := if n <= left then n else left;
      MemCopy(buf, off, file.bytes[pos..pos + m]);
      assert file.bytes[pos..pos + m] == Rest()[..m];
      pos := pos + m;
      if n == 0 || m < n {
        return Fail(FileError);
      }
      return Pass;
    }

    /** `feof` reads a byte ahead and puts it back: the position does not change. */
    method Feof() returns (end: bool)
      requires IsOpen()
      modifies this`pos
      ensures IsOpen() && pos == old(pos)
      ensures end <==> Rest() == []
    {
      var res := 0;
      if pos < |file.bytes| {
        pos, res := pos + 1, 1;
      }
      if res != 1 {
        end := true;
      } else {
        pos := pos - 1;
        end := false;
      }
    }
  }
}
