/** Files on disk and open handles on them. */
module Disk {
  import opened Prelude

  class DiskFile {
    var bytes: Bytes

    constructor (bytes: Bytes)
      ensures this.bytes == bytes
    {
      this.bytes := bytes;
    }
  }

  /** An open file: a cursor over a shared file. */
  class Handle {
    const file: DiskFile
    var pos: nat

    constructor Open(file: DiskFile)
      ensures this.file == file && pos == 0
    {
      this.file := file;
      this.pos := 0;
    }

    /** What the cursor has not read yet. */
    ghost function Rest(): Bytes
      reads this, file
    {
      if pos <= |file.bytes| then file.bytes[pos..] else []
    }

    method SeekTo(offset: nat)
      modifies this
      ensures pos == offset
    {
      pos := offset;
    }

    /** One `read`: any non-empty prefix of what remains, up to the buffer
        size; empty only at end of file or for an empty buffer. */
    method Read(want: nat) returns (chunk: Bytes)
      modifies this
      ensures |chunk| <= want && pos == old(pos) + |chunk|
      ensures chunk <= old(Rest()) && Rest() == old(Rest())[|chunk|..]
      ensures chunk == [] <==> want == 0 || old(Rest()) == []
    {
      if want == 0 || pos >= |file.bytes| {
        return [];
      }
      var n :| 1 <= n <= want && n <= |file.bytes| - pos;
      chunk := file.bytes[pos..pos + n];
      pos := pos + n;
    }

    /** One `read` whose answer is trusted without asking again. Unless it may fall
        short, it fills the buffer as far as the file goes. */
    method ReadOnce(want: nat, mayFallShort: bool) returns (chunk: Bytes)
      modifies this
      ensures |chunk| <= want && pos == old(pos) + |chunk|
      ensures chunk <= old(Rest()) && Rest() == old(Rest())[|chunk|..]
      ensures chunk == [] <==> want == 0 || old(Rest()) == []
      ensures !mayFallShort ==> |chunk| == Min(want, |old(Rest())|)
    {
      var most := if pos < |file.bytes| then Min(want, |file.bytes| - pos) else 0;
      if most == 0 {
        return [];
      }
      var n :| 1 <= n <= most && (mayFallShort || n == most);
      chunk := file.bytes[pos..pos + n];
      pos := pos + n;
    }

    /** `read_exact`: as many reads as it takes, or failure at end of file. */
    method ReadExact(n: nat) returns (r: Option<Bytes>)
      modifies this
      ensures r.Some? <==> n <= |old(Rest())|
      ensures r.Some? ==> r.value == old(Rest())[..n] && pos == old(pos) + n && Rest() == old(Rest())[n..]
    {
      var got: Bytes := [];
      ghost var all := Rest();
      while |got| < n
        invariant |got| <= n && got <= all && pos == old(pos) + |got|
        invariant Rest() == all[|got|..]
      {
        var chunk := Read(n - |got|);
        if chunk == [] {
          return None;
        }
        got := got + chunk;
      }
      return Some(got);
    }

    method WriteAll(data: Bytes)
      modifies this, file
      ensures file.bytes == Overwrite(old(file.bytes), old(pos), data)
      ensures pos == old(pos) + |data|
      ensures old(pos) == |old(file.bytes)| ==> file.bytes == old(file.bytes) + data
    {
      file.bytes := Overwrite(file.bytes, pos, data);
      pos := pos + |data|;
    }
  }

  /** Opens, seeks and reads exactly `n` bytes, or fails at end of file. */
  method ReadExactFrom(file: DiskFile, offset: nat, n: nat) returns (r: Option<Bytes>)
    requires n > 0
    ensures r == if offset + n <= |file.bytes| then Some(file.bytes[offset..offset + n]) else None
  {
    var handle := new Handle.Open(file);
    handle.SeekTo(offset);
    r := handle.ReadExact(n);
    if offset + n <= |file.bytes| {
      TakeOfDrop(file.bytes, offset, n);
    }
  }
}
