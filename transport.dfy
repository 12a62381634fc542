/**
 * The socket the library talks through (an `EthernetClient`). Only what the
 * library observes is kept: the outcome of each `connect()` call, the bytes the
 * server answers with and how many of them have been read, the text written to
 * the socket, and whether the link is up. Polling `available()` is folded into
 * `Read`: a read yields the next byte of the answer, and the answer running
 * out is what ends the connection.
 */
module Transport {
  import opened Wire

  /** `connect()` call number `i` (counted from 0) establishes a connection. */
  function ConnectSucceeds(outcomes: seq<bool>, i: nat): (r: bool)
    ensures r ==> i < |outcomes|
  {
    i < |outcomes| && outcomes[i]
  }

  class Client {
    /** Outcome of each successive `connect()` call; calls beyond the list fail. */
    const outcomes: seq<bool>
    /** The bytes the server sends back. */
    const response: seq<byte>
    /** `connect()` calls made so far. */
    var attempts: nat
    /** The link is up: set by a successful `connect()`, cleared by `stop()`. */
    var open: bool
    /** Bytes of `response` read so far. */
    var pos: nat
    /** Bytes `read()` has delivered so far, over every connection. */
    var received: nat
    /** Everything written with `print` and `println`. */
    var sent: string

    ghost predicate Valid()
      reads this
    {
      pos <= |response|
    }

    constructor (outcomes: seq<bool>, response: seq<byte>)
      ensures Valid()
      ensures this.outcomes == outcomes && this.response == response
      ensures attempts == 0 && !open && pos == 0 && received == 0 && sent == []
    {
      this.outcomes := outcomes;
      this.response := response;
      attempts, open, pos, received, sent := 0, false, 0, 0, [];
    }

    /** The bytes the server sent that have not been read yet. */
    function Pending(): seq<byte>
      reads this
      requires Valid()
    {
      response[pos..]
    }

    /** The bytes reads can still deliver: none once the link is down. */
    function Incoming(): seq<byte>
      reads this
      requires Valid()
    {
      if open then Pending() else []
    }

    /** `client.connected()`: the link is up and unread bytes remain. */
    predicate Connected()
      reads this
      requires Valid()
      ensures Connected() <==> Incoming() != []
    {
      open && pos < |response|
    }

    method Connect() returns (ok: bool)
      modifies this`attempts, this`open
      ensures ok == ConnectSucceeds(outcomes, old(attempts))
      ensures attempts == old(attempts) + 1
      ensures open == (old(open) || ok)
    {
      ok := ConnectSucceeds(outcomes, attempts);
      attempts := attempts + 1;
      if ok {
        open := true;
      }
    }

    /** `client.read()` once `client.available()` has reported a byte. */
    method Read() returns (b: byte)
      requires Valid() && Connected()
      modifies this`pos, this`received
      ensures Valid()
      ensures received == old(received) + 1
      ensures b == old(Incoming())[0]
      ensures Incoming() == old(Incoming())[1..]
      ensures Pending() == old(Pending())[1..]
    {
      b := response[pos];
      pos := pos + 1;
      received := received + 1;
    }

    method Print(s: string)
      modifies this`sent
      ensures sent == old(sent) + s
    {
      sent := sent + s;
    }

    /** `println` ends the text with CR LF. */
    method Println(s: string)
      modifies this`sent
      ensures sent == old(sent) + s + EOL
    {
      sent := sent + s + EOL;
    }

    /**
     * `client.stop()`: the link goes down and the bytes it did not deliver
     * are dropped, so a later connection starts with nothing left over.
     */
    method Stop()
      modifies this`open, this`pos
      ensures Valid() && !open && Pending() == []
    {
      open := false;
      pos := |response|;
    }
  }
}
