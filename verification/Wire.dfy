/** A connection: bytes to be read, bytes written, short reads and short writes. */
module Wire {

  class Stream {
    var input: string
    var output: string
    var broken: bool  // some read or write has reported an error

    constructor (input: string)
      ensures this.input == input && output == "" && !broken
    {
      this.input, output, broken := input, "", false;
    }

    /** Reads at least one and at most `n` bytes, none at the end of the input, or fails. */
    method Read(n: nat) returns (failed: bool, data: string)
      requires n > 0
      modifies this`input, this`broken
      ensures failed ==> broken && data == "" && input == old(input)
      ensures !failed ==> broken == old(broken) && data + input == old(input) && |data| <= n
      ensures !failed && old(input) != "" ==> data != ""
    {
      var fails: bool := *;
      if fails {
        broken := true;
        return true, "";
      }
      if input == "" {
        return false, "";
      }
      var most := if n <= |input| then n else |input|;
      var k :| 1 <= k <= most;
      data := input[..k];
      input := input[k..];
      return false, data;
    }

    /** Accepts at least one byte of `data`, or fails. */
    method Write(data: string) returns (failed: bool, n: nat)
      requires data != ""
      modifies this`output, this`broken
      ensures failed ==> broken && output == old(output)
      ensures !failed ==> broken == old(broken) && 1 <= n <= |data| && output == old(output) + data[..n]
    {
      var fails: bool := *;
      if fails {
        broken := true;
        return true, 0;
      }
      var k :| 1 <= k <= |data|;
      output := output + data[..k];
      return false, k;
    }
  }

  /** `write_data` */
  method WriteData(stream: Stream, data: string) returns (ok: bool)
    modifies stream`output, stream`broken
    ensures ok ==> stream.broken == old(stream.broken) && stream.output == old(stream.output) + data
    ensures !ok ==> stream.broken && exists n | 0 <= n < |data| :: stream.output == old(stream.output) + data[..n]
  {
    var offset := 0;
    assert old(stream.output) + data[..0] == old(stream.output);
    while offset < |data|
      invariant offset <= |data|
      invariant stream.broken == old(stream.broken) && stream.output == old(stream.output) + data[..offset]
    {
      var failed, length := stream.Write(data[offset..]);
      if failed {
        return false;
      }
      assert data[..offset] + data[offset..][..length] == data[..offset + length];
      offset := offset + length;
    }
    assert data[..offset] == data;
    return true;
  }
}
