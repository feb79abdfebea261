/** The byte stream below every protocol of the server. */
module Stream {
  import opened Bytes
  import opened Wrappers

  /** The stream below. Writes may be partial or fail; reads see what the peer has put there. */
  class NetConn {
    var incoming: Bytes
    var sent: Bytes
    ghost var consumed: Bytes  // what has been read so far

    constructor (incoming: Bytes)
      ensures this.incoming == incoming && sent == consumed == []
    {
      this.incoming, sent, consumed := incoming, [], [];
    }

    method Write(data: Bytes) returns (n: nat, ok: bool)
      modifies `sent
      ensures n <= |data| && sent == old(sent) + data[..n]
    {
      n :| n <= |data|;
      ok := *;
      sent := sent + data[..n];
    }

    /** A short stream is consumed and reported. */
    method ReadFull(size: nat) returns (r: Option<Bytes>)
      modifies `incoming, `consumed
      ensures consumed + incoming == old(consumed + incoming)
      ensures |old(incoming)| >= size ==>
                r == Some(old(incoming)[..size]) && incoming == old(incoming)[size..] && consumed == old(consumed) + old(incoming)[..size]
      ensures |old(incoming)| < size ==> r == None && incoming == [] && consumed == old(consumed) + old(incoming)
    {
      if |incoming| < size {
        consumed := consumed + incoming;
        incoming := [];
        return None;
      }
      r := Some(incoming[..size]);
      consumed := consumed + incoming[..size];
      incoming := incoming[size..];
    }

    /** Partial writes are continued; an error or a write of nothing ends the attempt. */
    method WriteAll(whole: Bytes) returns (ok: bool, ghost taken: nat)
      modifies `sent
      ensures taken <= |whole| && sent == old(sent) + whole[..taken]
      ensures ok ==> taken == |whole|
    {
      var packet := whole;
      taken := 0;
      while |packet| != 0
        invariant taken <= |whole| && packet == whole[taken..] && sent == old(sent) + whole[..taken]
        decreases |packet|
      {
        var n, written := Write(packet);
        assert whole[..taken] + packet[..n] == whole[..taken + n];
        taken := taken + n;
        if !written || n == 0 {
          return false, taken;
        }
        packet := packet[n..];
      }
      ok := true;
    }
  }
}
