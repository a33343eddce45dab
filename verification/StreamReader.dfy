/** The asyncio byte stream a peer writes to: everything it will ever deliver, in
    order, consumed by partial reads whose sizes the network chooses. */
module StreamReaders {
  import opened Octets

  class StreamReader {
    /** The bytes still to be delivered before end of file. */
    var wire: Bytes

    constructor (wire: Bytes)
      ensures this.wire == wire
    {
      this.wire := wire;
    }

    /** `readexactly(n)`: None stands for IncompleteReadError, which discards the
        partial data. */
    method ReadExactly(n: nat) returns (r: Option<Bytes>)
      modifies this
      ensures |old(wire)| >= n ==> r == Some(old(wire)[..n]) && wire == old(wire)[n..]
      ensures |old(wire)| < n ==> r == None && wire == []
    {
      if |wire| < n {
        wire := [];
        return None;
      }
      r := Some(wire[..n]);
      wire := wire[n..];
    }

    /** `read(n)`: some available bytes, at most n; nothing only at end of file or for
        n == 0.  How many arrive is up to the network. */
    method Read(n: nat) returns (data: Bytes)
      modifies this
      ensures |data| <= n && old(wire) == data + wire
      ensures data == [] <==> n == 0 || old(wire) == []
    {
      if n == 0 || wire == [] {
        return [];
      }
      var most := if n < |wire| then n else |wire|;
      var k :| 1 <= k <= most;
      data := wire[..k];
      wire := wire[k..];
    }
  }
}
