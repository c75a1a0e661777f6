/** The bounded tail of raw PTY output that a timed-out wait reports. */
module RawTail {
  const CAP: nat := 2048

  type Byte = b: int | 0 <= b < 256

  /** The last `CAP` bytes of some output. */
  function Last(output: seq<Byte>): (r: seq<Byte>)
    ensures |r| <= CAP
  {
    if |output| <= CAP then output else output[|output| - CAP..]
  }

  class Tail {
    var bytes: seq<Byte>

    constructor ()
      ensures bytes == []
    {
      bytes := [];
    }

    /** `push_raw_tail`. */
    method Push(chunk: seq<Byte>)
      requires |bytes| <= CAP
      modifies this
      ensures bytes == Last(old(bytes) + chunk)
    {
      if |chunk| >= CAP {
        bytes := [];
        bytes := bytes + chunk[|chunk| - CAP..];
        return;
      }
      var dropped := 0;
      while |bytes| + |chunk| > CAP
        invariant dropped <= |old(bytes)| && bytes == old(bytes)[dropped..]
        invariant dropped > 0 ==> |bytes| + |chunk| >= CAP
        decreases |bytes|
      {
        bytes := bytes[1..];
        dropped := dropped + 1;
      }
      bytes := bytes + chunk;
    }
  }

  function Concat(chunks: seq<seq<Byte>>): seq<Byte> {
    if chunks == [] then [] else Concat(chunks[..|chunks| - 1]) + chunks[|chunks| - 1]
  }

  /** The tail after pushing the chunks one by one. */
  function Pushed(chunks: seq<seq<Byte>>): seq<Byte> {
    if chunks == [] then [] else Last(Pushed(chunks[..|chunks| - 1]) + chunks[|chunks| - 1])
  }

  lemma {:induction false} PushedIsLast(chunks: seq<seq<Byte>>)
    ensures Pushed(chunks) == Last(Concat(chunks))
  {
    if chunks != [] {
      PushedIsLast(chunks[..|chunks| - 1]);
      LastOfLast(Concat(chunks[..|chunks| - 1]), chunks[|chunks| - 1]);
    }
  }

  /** However the output is cut into chunks, the tail is all of it if it is short, and else its
      last 2048 bytes. */
  lemma TailOfOutput(chunks: seq<seq<Byte>>, before: seq<Byte>, end: seq<Byte>)
    requires Concat(chunks) == before + end
    ensures |before + end| <= CAP ==> Pushed(chunks) == before + end
    ensures |end| == CAP ==> Pushed(chunks) == end
  {
    PushedIsLast(chunks);
    assert |end| == CAP ==> (before + end)[|before|..] == end;
  }

  lemma LastOfLast(a: seq<Byte>, b: seq<Byte>)
    ensures Last(Last(a) + b) == Last(a + b)
  {
  }
}
