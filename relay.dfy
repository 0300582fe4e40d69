/**
 * The audio relay between the recorder and the transcription connection.
 * Recorded chunks are pushed onto a queue; a processing step, guarded by a
 * busy flag, forwards the queue head while the connection is listening and
 * then starts a cooldown; only the cooldown's expiry clears the busy flag.
 * The 250 ms timer is the explicit event `CooldownExpired`, and the
 * connection's `send` appends to the log `sent`.
 */
module Relay {

  class AudioRelay<Chunk> {
    /** Chunks recorded and not yet forwarded, oldest first. */
    var queue: seq<Chunk>
    /** Set by a processing step; cleared only when its cooldown expires. */
    var isProcessing: bool
    /** Whether the connection has reported open (and not closed since). */
    var isListening: bool
    /** Chunks handed to the connection, in the order they were sent. */
    var sent: seq<Chunk>

    /** Every chunk ever recorded, in arrival order. */
    ghost var added: seq<Chunk>
    /** Chunks sent since the last cooldown expiry. */
    ghost var sentInWindow: nat

    /**
     * Nothing is lost, duplicated or reordered: what was sent followed by what
     * is queued is what was recorded. At most one chunk is sent per cooldown
     * window, and a window with a send in it is still busy.
     */
    ghost predicate Valid()
      reads this
    {
      sent + queue == added &&
      sentInWindow <= 1 &&
      (sentInWindow == 1 ==> isProcessing)
    }

    constructor ()
      ensures Valid()
      ensures queue == [] && sent == [] && added == []
      ensures !isProcessing && !isListening
    {
      queue := [];
      isProcessing := false;
      isListening := false;
      sent := [];
      added := [];
      sentInWindow := 0;
    }

    /** The recorder's `ondataavailable`: the chunk joins the end of the queue. */
    method Add(chunk: Chunk)
      requires Valid()
      modifies this
      ensures Valid()
      ensures queue == old(queue) + [chunk] && added == old(added) + [chunk]
      ensures sent == old(sent)
      ensures isProcessing == old(isProcessing) && isListening == old(isListening)
      ensures sentInWindow == old(sentInWindow)
    {
      queue := queue + [chunk];
      added := added + [chunk];
    }

    /** The connection reports open. */
    method Open()
      requires Valid()
      modifies this
      ensures Valid()
      ensures isListening
      ensures queue == old(queue) && sent == old(sent) && added == old(added)
      ensures isProcessing == old(isProcessing) && sentInWindow == old(sentInWindow)
    {
      isListening := true;
    }

    /** The connection reports closed; queued chunks stay queued. */
    method Close()
      requires Valid()
      modifies this
      ensures Valid()
      ensures !isListening
      ensures queue == old(queue) && sent == old(sent) && added == old(added)
      ensures isProcessing == old(isProcessing) && sentInWindow == old(sentInWindow)
    {
      isListening := false;
    }

    /**
     * One run of the processing step. It does nothing while busy or with an
     * empty queue. Otherwise it marks the relay busy and starts a cooldown,
     * and, only if the connection is listening, sends the queue head and
     * drops it from the queue.
     */
    method Tick()
      requires Valid()
      modifies this
      ensures Valid()
      ensures added == old(added) && isListening == old(isListening)
      ensures old(queue) == [] || old(isProcessing) ==>
        queue == old(queue) && sent == old(sent) && isProcessing == old(isProcessing)
      ensures old(queue) != [] && !old(isProcessing) ==> isProcessing
      ensures old(queue) != [] && !old(isProcessing) && old(isListening) ==>
        sent == old(sent) + [old(queue)[0]] && queue == old(queue)[1..]
      ensures !old(isListening) ==> queue == old(queue) && sent == old(sent)
      ensures old(isProcessing) ==> isProcessing
    {
      if |queue| > 0 && !isProcessing {
        isProcessing := true;
        if isListening {
          sent := sent + [queue[0]];
          queue := queue[1..];
          sentInWindow := sentInWindow + 1;
        }
      }
    }

    /** The 250 ms timer fires: the relay may process again. */
    method CooldownExpired()
      requires Valid()
      modifies this
      ensures Valid()
      ensures !isProcessing && sentInWindow == 0
      ensures queue == old(queue) && sent == old(sent) && added == old(added)
      ensures isListening == old(isListening)
    {
      isProcessing := false;
      sentInWindow := 0;
    }
  }

  /**
   * Three chunks recorded before the connection opens are sent, after it
   * opens, in recording order, one per cooldown window.
   */
  method DrainAfterOpen<Chunk>(c1: Chunk, c2: Chunk, c3: Chunk) returns (sent: seq<Chunk>, leftOver: seq<Chunk>)
    ensures sent == [c1, c2, c3] && leftOver == []
  {
    var relay := new AudioRelay<Chunk>();
    relay.Add(c1);
    relay.Add(c2);
    relay.Add(c3);
    relay.Tick();
    assert relay.sent == [] && relay.isProcessing;
    relay.CooldownExpired();
    relay.Open();
    relay.Tick();
    relay.Tick();
    assert relay.sent == [c1];
    relay.CooldownExpired();
    relay.Tick();
    relay.CooldownExpired();
    relay.Tick();
    sent, leftOver := relay.sent, relay.queue;
  }
}
