/** `struct sigma_conn` of sigma_dut.h: the receive buffer of the control
    connection, sized for the longest command plus framing slack, the
    cursor `pos` that says how many of its bytes hold received data, and the
    flag that says the connection waits for a deferred command to finish. */
module Connection {
  import opened Be32

  /** `MAX_CMD_LEN` and the buffer size `MAX_CMD_LEN + 5` it fixes. */
  const MAX_CMD_LEN: nat := 2048
  const CONN_BUF_SIZE: nat := MAX_CMD_LEN + 5

  class SigmaConn {
    const buf: array<u8>
    var pos: int
    var waitingCompletion: bool

    /** The buffer has its fixed size and the cursor stays inside it. */
    ghost predicate Valid()
      reads this
    {
      buf.Length == CONN_BUF_SIZE && 0 <= pos <= buf.Length
    }

    /** The received bytes not yet taken out of the buffer. */
    ghost function Pending(): (p: seq<u8>)
      reads this, buf
      requires Valid()
      ensures |p| <= CONN_BUF_SIZE
    {
      buf[..pos]
    }

    /** A connection with nothing received and nothing deferred. */
    constructor ()
      ensures Valid() && fresh(buf)
      ensures Pending() == [] && !waitingCompletion
    {
      buf := new u8[CONN_BUF_SIZE](_ => 0);
      pos := 0;
      waitingCompletion := false;
    }

    /** How many more bytes the buffer can take after the cursor. */
    function Room(): (n: nat)
      reads this
      requires Valid()
      ensures pos + n == CONN_BUF_SIZE
    {
      buf.Length - pos
    }

    /** Stores bytes that arrived on the socket after those already held.
        A read is never given more room than is left, so only the first
        `n = min(|data|, Room())` bytes are taken. */
    method Receive(data: seq<u8>) returns (n: nat)
      requires Valid()
      modifies this`pos, buf
      ensures Valid()
      ensures n == if |data| <= old(Room()) then |data| else old(Room())
      ensures Pending() == old(Pending()) + data[..n]
      ensures waitingCompletion == old(waitingCompletion)
    {
      n := if |data| <= buf.Length - pos then |data| else buf.Length - pos;
      forall i | 0 <= i < n {
        buf[pos + i] := data[i];
      }
      pos := pos + n;
    }

    /** Forgets everything received so far (a processed or an oversize
        line). */
    method DropPending()
      requires Valid()
      modifies this`pos
      ensures Valid() && Pending() == []
    {
      pos := 0;
    }

    /** Marks the connection as waiting for a deferred command. At most one
        deferred command may be outstanding: if one already is, nothing
        changes and `ok` is false. */
    method BeginWaiting() returns (ok: bool)
      requires Valid()
      modifies this`waitingCompletion
      ensures Valid()
      ensures ok <==> !old(waitingCompletion)
      ensures waitingCompletion
    {
      ok := !waitingCompletion;
      waitingCompletion := true;
    }

    /** The deferred command has sent its final status. */
    method EndWaiting()
      requires Valid()
      modifies this`waitingCompletion
      ensures Valid()
      ensures !waitingCompletion
    {
      waitingCompletion := false;
    }
  }
}
