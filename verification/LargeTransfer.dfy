/** The resumable sender of examples/tcp/tcp-large-transfer.cc: a callback that writes until the socket
    is full and takes up where it left off. */
module LargeTransfer {

  const TOTAL_TX_BYTES: nat := 2000000
  const WRITE_SIZE: nat := 1040

  /** The byte meant for stream position `p`. */
  function Pattern(p: nat): nat { 97 + p % 26 }

  function Patterned(from: nat, n: nat): (s: seq<int>)
    ensures |s| == n && forall i :: 0 <= i < n ==> s[i] == Pattern(from + i)
  {
    seq(n, i requires 0 <= i < n => Pattern(from + i))
  }

  /** What the socket says during one loop iteration: its free space, and its answer to a write, where
      a negative answer is a refusal. */
  datatype Response = Response(space: nat, reply: int)

  function Min(a: nat, b: nat): nat { if a < b then a else b }

  /** How much is offered from stream position `p`. */
  function Chunk(p: nat, space: nat): nat
    requires p <= TOTAL_TX_BYTES
  {
    Min(Min(WRITE_SIZE - p % WRITE_SIZE, TOTAL_TX_BYTES - p), space)
  }

  /** One callback: where the stream gets to, and whether a write was refused. When the responses run
      out the socket has no free space. */
  function Deliver(p: nat, responses: seq<Response>): (r: (nat, bool))
    requires p <= TOTAL_TX_BYTES
    ensures p <= r.0 <= TOTAL_TX_BYTES && (r.1 ==> r.0 < TOTAL_TX_BYTES)
    decreases |responses|
  {
    if p == TOTAL_TX_BYTES || responses == [] || responses[0].space == 0 then (p, false)
    else if responses[0].reply < 0 then (p, true)
    else Deliver(p + Min(responses[0].reply, Chunk(p, responses[0].space)), responses[1..])
  }

  class Socket {
    var responses: seq<Response>
    var stream: seq<int>  // every byte accepted so far
    var closes: nat

    constructor ()
      ensures responses == [] && stream == [] && closes == 0
    {
      responses, stream, closes := [], [], 0;
    }

    function GetTxAvailable(): nat
      reads this
    {
      if responses == [] then 0 else responses[0].space
    }

    /** Accepts a prefix of the bytes offered, or refuses. */
    method Send(data: array<int>, offset: nat, n: nat) returns (amountSent: int)
      requires offset + n <= data.Length && 0 < n <= GetTxAvailable()
      modifies `responses, `stream
      ensures responses == old(responses)[1..]
      ensures amountSent == if old(responses)[0].reply < 0 then -1 else Min(old(responses)[0].reply, n)
      ensures stream == old(stream) + if amountSent < 0 then [] else data[offset..offset + amountSent]
    {
      var reply := responses[0].reply;
      responses := responses[1..];
      if reply < 0 {
        return -1;
      }
      amountSent := Min(reply, n);
      stream := stream + data[offset..offset + amountSent];
    }

    method Close()
      modifies `closes
      ensures closes == old(closes) + 1
    {
      closes := closes + 1;
    }
  }

  class Sender {
    const socket: Socket
    const data: array<int>
    var currentTxBytes: nat

    /** The buffer holds whole periods of the pattern, the stream is the pattern so far, and the socket
        is only ever closed once everything has been accepted. */
    ghost predicate Valid()
      reads this, data, socket
    {
      && data.Length == WRITE_SIZE
      && (forall i :: 0 <= i < WRITE_SIZE ==> data[i] == Pattern(i))
      && currentTxBytes <= TOTAL_TX_BYTES
      && socket.stream == Patterned(0, currentTxBytes)
      && (socket.closes > 0 ==> currentTxBytes == TOTAL_TX_BYTES)
    }

    /** Fills the transmit buffer. */
    constructor (socket: Socket)
      requires socket.stream == [] && socket.closes == 0
      ensures Valid() && this.socket == socket && fresh(data) && currentTxBytes == 0
    {
      this.socket := socket;
      data := new int[WRITE_SIZE];
      currentTxBytes := 0;
      new;
      for i := 0 to WRITE_SIZE
        invariant forall k :: 0 <= k < i ==> data[k] == Pattern(k)
        invariant socket.stream == [] && socket.closes == 0 && currentTxBytes == 0
      {
        data[i] := 97 + i % 26;
      }
    }

    /** The send callback. */
    method WriteUntilBufferFull()
      requires Valid()
      modifies this, socket
      ensures Valid()
      ensures |socket.stream| == currentTxBytes
      ensures forall p :: 0 <= p < currentTxBytes ==> socket.stream[p] == 97 + p % 26
      ensures var r := Deliver(old(currentTxBytes), old(socket.responses));
        && currentTxBytes == r.0
        && socket.closes == old(socket.closes) + if !r.1 && r.0 == TOTAL_TX_BYTES then 1 else 0
    {
      ghost var end := Deliver(currentTxBytes, socket.responses);
      while currentTxBytes < TOTAL_TX_BYTES && socket.GetTxAvailable() > 0
        invariant Valid() && socket.closes == old(socket.closes)
        invariant Deliver(currentTxBytes, socket.responses) == end
        decreases |socket.responses|
      {
        var left := TOTAL_TX_BYTES - currentTxBytes;
        var dataOffset := currentTxBytes % WRITE_SIZE;
        var toWrite := WRITE_SIZE - dataOffset;
        toWrite := Min(toWrite, left);
        toWrite := Min(toWrite, socket.GetTxAvailable());
        var amountSent := socket.Send(data, dataOffset, toWrite);
        if amountSent < 0 {
          return;
        }
        BufferMatchesStream(currentTxBytes, amountSent, data[..]);
        assert data[dataOffset..dataOffset + amountSent] == data[..][dataOffset..dataOffset + amountSent];
        currentTxBytes := currentTxBytes + amountSent;
      }
      if currentTxBytes >= TOTAL_TX_BYTES {
        socket.Close();
      }
    }

    /** Any sequence of callbacks, each meeting a socket that behaves as it likes. */
    method RunCallbacks(callbacks: seq<seq<Response>>)
      requires Valid()
      modifies this, socket
      ensures Valid() && currentTxBytes >= old(currentTxBytes)
      ensures currentTxBytes == DeliverAll(old(currentTxBytes), callbacks)
      ensures socket.stream == Patterned(0, currentTxBytes)
      ensures socket.closes == old(socket.closes) + Closings(old(currentTxBytes), callbacks)
    {
      for i := 0 to |callbacks|
        invariant Valid() && currentTxBytes == DeliverAll(old(currentTxBytes), callbacks[..i])
        invariant currentTxBytes >= old(currentTxBytes)
        invariant socket.closes == old(socket.closes) + Closings(old(currentTxBytes), callbacks[..i])
      {
        assert callbacks[..i + 1][..i] == callbacks[..i];
        socket.responses := callbacks[i];
        WriteUntilBufferFull();
      }
      assert callbacks[..|callbacks|] == callbacks;
    }
  }

  function DeliverAll(p: nat, callbacks: seq<seq<Response>>): (r: nat)
    requires p <= TOTAL_TX_BYTES
    ensures p <= r <= TOTAL_TX_BYTES
  {
    if callbacks == [] then p
    else Deliver(DeliverAll(p, callbacks[..|callbacks| - 1]), callbacks[|callbacks| - 1]).0
  }

  /** Callback `i` ends with everything accepted. */
  predicate Complete(p: nat, callbacks: seq<seq<Response>>, i: nat)
    requires p <= TOTAL_TX_BYTES && i < |callbacks|
  {
    DeliverAll(p, callbacks[..i + 1]) == TOTAL_TX_BYTES
  }

  /** How many callbacks end complete; each of them closes the socket. */
  function Closings(p: nat, callbacks: seq<seq<Response>>): (n: nat)
    requires p <= TOTAL_TX_BYTES
    ensures n <= |callbacks|
  {
    if callbacks == [] then 0
    else Closings(p, callbacks[..|callbacks| - 1]) + if DeliverAll(p, callbacks) == TOTAL_TX_BYTES then 1 else 0
  }

  /** Nothing takes back what was accepted: after a complete callback all others are complete. */
  lemma {:induction false} StaysComplete(p: nat, callbacks: seq<seq<Response>>, i: nat, j: nat)
    requires p <= TOTAL_TX_BYTES && i <= j < |callbacks| && Complete(p, callbacks, i)
    ensures Complete(p, callbacks, j)
  {
    if i < j {
      StaysComplete(p, callbacks, i, j - 1);
      assert callbacks[..j + 1][..j] == callbacks[..j];
    }
  }

  lemma {:induction false} ClosingsFrom(p: nat, callbacks: seq<seq<Response>>, i: nat)
    requires p <= TOTAL_TX_BYTES && i <= |callbacks|
    requires forall k :: 0 <= k < |callbacks| ==> (Complete(p, callbacks, k) <==> k >= i)
    ensures Closings(p, callbacks) == |callbacks| - i
  {
    if callbacks != [] {
      var most := callbacks[..|callbacks| - 1];
      forall k | 0 <= k < |most| ensures Complete(p, most, k) <==> k >= i {
        assert most[..k + 1] == callbacks[..k + 1];
        assert Complete(p, callbacks, k) <==> k >= i;
      }
      assert callbacks[..|callbacks|] == callbacks;
      assert Complete(p, callbacks, |callbacks| - 1) <==> |callbacks| - 1 >= i;
      if i < |callbacks| {
        ClosingsFrom(p, most, i);
      } else {
        ClosingsFrom(p, most, i - 1);
      }
    }
  }

  /** The socket is closed by the first complete callback and again by each one after it: never if there
      is none, and more than once exactly when another callback follows. */
  lemma ClosedAtMostOnceIff(p: nat, callbacks: seq<seq<Response>>)
    requires p <= TOTAL_TX_BYTES
    ensures Closings(p, callbacks) == 0 <==> forall i :: 0 <= i < |callbacks| ==> !Complete(p, callbacks, i)
    ensures Closings(p, callbacks) <= 1 <==>
      forall i, j :: 0 <= i < j < |callbacks| ==> !(Complete(p, callbacks, i) && Complete(p, callbacks, j))
    ensures Closings(p, callbacks) <= 1 <==> forall i :: 0 <= i < |callbacks| - 1 ==> !Complete(p, callbacks, i)
  {
    var first := 0;
    while first < |callbacks| && !Complete(p, callbacks, first)
      invariant first <= |callbacks| && forall k :: 0 <= k < first ==> !Complete(p, callbacks, k)
    {
      first := first + 1;
    }
    forall k | first <= k < |callbacks| ensures Complete(p, callbacks, k) { StaysComplete(p, callbacks, first, k); }
    ClosingsFrom(p, callbacks, first);
    if first < |callbacks| - 1 { assert Complete(p, callbacks, first) && Complete(p, callbacks, first + 1); }
  }

  lemma ModAdd(q: nat, r: nat)
    ensures (26 * q + r) % 26 == r % 26
  {
    var t := r / 26;
    assert 26 * q + r == 26 * (q + t) + r % 26;
  }

  /** The write buffer and the stream stay in phase, because the buffer is a whole number of periods:
      bytes taken at the buffer offset continue the pattern. */
  lemma BufferMatchesStream(p: nat, n: nat, data: seq<int>)
    requires |data| == WRITE_SIZE && forall i :: 0 <= i < WRITE_SIZE ==> data[i] == Pattern(i)
    requires p % WRITE_SIZE + n <= WRITE_SIZE
    ensures Patterned(0, p) + data[p % WRITE_SIZE..p % WRITE_SIZE + n] == Patterned(0, p + n)
  {
    var o := p % WRITE_SIZE;
    var chunk := data[o..o + n];
    forall k | 0 <= k < n ensures chunk[k] == Pattern(p + k) {
      assert p == 26 * (40 * (p / WRITE_SIZE)) + o;
      ModAdd(40 * (p / WRITE_SIZE), o + k);
    }
    assert Patterned(0, p) + chunk == Patterned(0, p + n);
  }

  /** One step of a callback, without a word on how the amount is computed. Nothing more is written when all was
      accepted, the socket has no room, or it refuses; otherwise the stream advances by the least of what the
      socket takes, its free space, what is left of the total and what is left of the buffer. */
  lemma DeliverMeans(p: nat, responses: seq<Response>)
    requires p <= TOTAL_TX_BYTES
    ensures p == TOTAL_TX_BYTES || responses == [] || responses[0].space == 0 ==> Deliver(p, responses) == (p, false)
    ensures p < TOTAL_TX_BYTES && responses != [] && responses[0].space > 0 && responses[0].reply < 0 ==>
      Deliver(p, responses) == (p, true)
    ensures p < TOTAL_TX_BYTES && responses != [] && responses[0].space > 0 && responses[0].reply >= 0 ==>
      var q := Deliver(p, [responses[0]]).0;
      && Least(q - p, {responses[0].reply, responses[0].space, 2000000 - p, 1040 - p % 1040})
      && Deliver(p, responses) == Deliver(q, responses[1..])
  {
    if p < TOTAL_TX_BYTES && responses != [] && responses[0].space > 0 && responses[0].reply >= 0 {
      var one := [responses[0]];
      assert one[1..] == [];
      assert Deliver(p, one) == Deliver(p + Min(responses[0].reply, Chunk(p, responses[0].space)), one[1..]);
    }
  }

  ghost predicate Least(x: int, s: set<int>) { x in s && forall y :: y in s ==> x <= y }

  /** A socket with room for whole buffers that takes them gets one with each write. */
  lemma {:induction false} WholeBuffers(p: nat, responses: seq<Response>)
    requires p <= TOTAL_TX_BYTES && p % WRITE_SIZE == 0
    requires forall i :: 0 <= i < |responses| ==> responses[i].space >= WRITE_SIZE && responses[i].reply >= WRITE_SIZE
    ensures var end := p + |responses| * 1040;
      Deliver(p, responses) == (if end < 2000000 then end else 2000000, false)
    decreases |responses|
  {
    if responses != [] && p < TOTAL_TX_BYTES {
      DeliverMeans(p, responses);
      if TOTAL_TX_BYTES - p >= WRITE_SIZE {
        WholeBuffers(p + WRITE_SIZE, responses[1..]);
      }
    }
  }

  /** A socket that accepts something each time gets everything, and is closed. */
  lemma {:induction false} AcceptingSocketGetsAll(p: nat, responses: seq<Response>)
    requires p <= TOTAL_TX_BYTES && |responses| >= TOTAL_TX_BYTES - p
    requires forall i :: 0 <= i < |responses| ==> responses[i].space > 0 && responses[i].reply > 0
    ensures Deliver(p, responses) == (TOTAL_TX_BYTES, false)
    decreases |responses|
  {
    if p < TOTAL_TX_BYTES {
      AcceptingSocketGetsAll(p + Min(responses[0].reply, Chunk(p, responses[0].space)), responses[1..]);
    }
  }

  /** Why the write size is a multiple of the period: if `d` bytes are lost after position `p` of a
      stream that goes on, the receiver sees the pattern broken unless the loss is a whole number of
      periods. */
  lemma SpliceIsVisible(p: nat, d: nat, n: nat)
    requires n > p
    ensures Patterned(0, p) + Patterned(p + d, n - p) == Patterned(0, n) <==> d % 26 == 0
  {
    var spliced := Patterned(0, p) + Patterned(p + d, n - p);
    if d % 26 == 0 {
      forall i | p <= i < n ensures spliced[i] == Pattern(i) {
        assert spliced[i] == Pattern(d + i);
      }
    } else {
      assert spliced[p] == Pattern(p + d) != Pattern(p);
    }
  }

  /** A concrete callback too many: the socket takes all bytes one at a time in the first callback, and is
      closed again by the second. */
  lemma SecondClose()
    ensures Closings(0, [seq(TOTAL_TX_BYTES, _ => Response(1, 1)), []]) == 2
  {
    var answers: seq<Response> := seq(TOTAL_TX_BYTES, _ => Response(1, 1));
    AcceptingSocketGetsAll(0, answers);
    var both := [answers, []];
    assert both[..1] == [answers] && both[..1][..0] == [] && both[..2] == both;
    assert DeliverAll(0, []) == 0 && DeliverAll(0, [answers]) == TOTAL_TX_BYTES;
  }
}
