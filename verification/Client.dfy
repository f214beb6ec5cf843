/** The client waiting for a reply. */
module Client {
  import opened Bytes
  import opened Framing
  import opened ReadBuffers
  import opened ReplySyntax

  datatype ReplyResult = Received(reply: Reply) | ConnectionAborted | TooLongReply | SyntaxError

  /** A printed ASCII reply that fits the buffer is understood from any first part of it and of what follows it. */
  lemma PrintedReplyDecides(r: Reply, following: bytes, size: nat)
    requires Good(r) && IsAscii(r) && |Print(r)| <= size
    requires r.ecode.Some? || forall i :: 0 <= i < |r.text| ==> !Readable(r.text[i].s)
    ensures Decides(ParseReply, size, Print(r) + following)
    ensures Await(ParseReply, size, Print(r) + following) == Got(r, |Print(r)|)
  {
    var s, n := Print(r) + following, |Print(r)|;
    ReplyRoundTrip(r, []);
    assert n > 0;
    forall k: nat | 0 < k <= Min(size, |s|)
      ensures ParseReply(s[..k]) == if k < n then Incomplete else Ok(r, following[..k - n])
    {
      FirstPart(r, following, k);
    }
  }

  lemma FirstPart(r: Reply, following: bytes, k: nat)
    requires Good(r) && IsAscii(r) && k <= |Print(r) + following|
    requires r.ecode.Some? || forall i :: 0 <= i < |r.text| ==> !Readable(r.text[i].s)
    ensures ParseReply((Print(r) + following)[..k]) ==
            if k < |Print(r)| then Incomplete else Ok(r, following[..k - |Print(r)|])
  {
    var s, n := Print(r) + following, |Print(r)|;
    if k < n {
      assert s[..k] == Print(r)[..k];
      AsciiReplyPrefix(r, k);
    } else {
      assert s[..k] == Print(r) + following[..k - n];
      ReplyRoundTrip(r, following[..k - n]);
    }
  }

  /**
   Reads a reply. A printed ASCII reply that fits the buffer is received whole, in
   however many pieces it comes, and what follows it is kept for the next call.
   */
  method ReadReply(io: ReadBuffer, needed: bytes -> Option<nat>) returns (r: ReplyResult)
    requires io.Valid() && io.buf.Length == RDBUF_SIZE
    modifies io`start, io`end, io.buf, io.source
    ensures io.Valid()
    ensures !r.Received? ==> io.Rest() == old(io.Rest())
    ensures exists a :: Decided(ParseReply, RDBUF_SIZE, old(io.Rest()), a) && r == Result(a) &&
                        (a.Got? ==> a.len <= |old(io.Rest())| && io.Rest() == old(io.Rest())[a.len..])
    ensures r.TooLongReply? ==> RDBUF_SIZE <= |old(io.Rest())| && ParseReply(old(io.Rest())[..RDBUF_SIZE]).Incomplete?
    ensures r.SyntaxError? ==> exists k: nat :: 0 < k <= Min(RDBUF_SIZE, |old(io.Rest())|) && ParseReply(old(io.Rest())[..k]).Error?
    ensures r.ConnectionAborted? ==> |old(io.Rest())| < RDBUF_SIZE && (old(io.Rest()) == [] || ParseReply(old(io.Rest())).Incomplete?)
    ensures forall reply, following ::
              && Good(reply) && IsAscii(reply) && |Print(reply)| <= RDBUF_SIZE && old(io.Rest()) == Print(reply) + following
              && (reply.ecode.Some? || forall i :: 0 <= i < |reply.text| ==> !Readable(reply.text[i].s))
              ==> r == Received(reply) && io.Rest() == following
  {
    ghost var all := io.Rest();
    ReplyConsumes();
    var a := io.Receive(ParseReply, needed);
    r := Result(a);
    ResultMeans(ParseReply, RDBUF_SIZE, all, a);
    forall reply, following |
      && Good(reply) && IsAscii(reply) && |Print(reply)| <= RDBUF_SIZE && all == Print(reply) + following
      && (reply.ecode.Some? || forall i :: 0 <= i < |reply.text| ==> !Readable(reply.text[i].s))
      ensures r == Received(reply) && io.Rest() == following
    {
      PrintedReplyDecides(reply, following, RDBUF_SIZE);
      DecidesOnce(ParseReply, RDBUF_SIZE, all, a);
    }
  }

  function Result(a: Awaited<Reply>): ReplyResult {
    match a
    case Got(reply, _) => Received(reply)
    case Bad => SyntaxError
    case Full => TooLongReply
    case Cut => ConnectionAborted
    case Closed => ConnectionAborted
  }
}
