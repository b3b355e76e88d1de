/** How both ends of a connection cut the byte stream into messages. */
module Framing {
  import opened Bytes
  import opened Identifiers
  import opened Protocol

  /** A connection that will deliver `incoming` and then end (closed, timed out or
      failed). `sizes` is how many bytes the successive `recv` calls are willing to
      return: any chunking is some choice of `sizes`. */
  class Socket {
    const incoming: seq<Byte>
    var position: nat
    var sizes: seq<nat>

    ghost predicate Valid()
      reads this
    {
      position <= |incoming|
    }

    ghost function Rest(): seq<Byte>
      requires Valid()
      reads this
    {
      incoming[position..]
    }

    constructor (stream: seq<Byte>, chunks: seq<nat>)
      ensures Valid() && incoming == stream && Rest() == stream
    {
      incoming, position, sizes := stream, 0, chunks;
    }

    /** At least one byte and at most `max`, or nothing at the end of the stream. */
    method Recv(max: nat) returns (chunk: seq<Byte>)
      requires Valid() && max > 0
      modifies this
      ensures Valid() && position == old(position) + |chunk| && |chunk| <= max
      ensures chunk == incoming[old(position)..position]
      ensures chunk == [] <==> old(position) == |incoming|
    {
      var n := if sizes == [] then max else sizes[0];
      sizes := if sizes == [] then [] else sizes[1..];
      n := if n == 0 then 1 else if n > max then max else n;
      n := if n > |incoming| - position then |incoming| - position else n;
      chunk := incoming[position..position + n];
      position := position + n;
    }
  }

  /** `receive_data`: whatever the chunking, exactly the next `expected` bytes. */
  method ReceiveData(s: Socket, expected: nat) returns (ok: bool, buffer: seq<Byte>)
    requires s.Valid()
    modifies s
    ensures s.Valid()
    ensures ok <==> expected <= |old(s.Rest())|
    ensures ok ==> buffer == old(s.Rest())[..expected] && s.Rest() == old(s.Rest())[expected..]
  {
    ghost var start := s.position;
    buffer := [];
    var totalReceived := 0;
    while totalReceived < expected
      invariant s.Valid() && totalReceived <= expected && s.position == start + totalReceived
      invariant buffer == s.incoming[start..start + totalReceived]
    {
      var received := s.Recv(expected - totalReceived);
      if |received| == 0 {
        return false, buffer;
      }
      buffer := buffer + received;
      totalReceived := totalReceived + |received|;
    }
    assert buffer == s.incoming[start..][..expected] && s.incoming[start..][expected..] == s.Rest();
    return true, buffer;
  }

  // ---------------------------------------------------------------- the server's loop

  /** How a stream ends: cleanly or inside a message, or with a key length whose
      32-bit sum with 4 wraps around, after which the loop reads out of bounds. */
  datatype End = Closed | Overrun

  datatype Cutting = Cutting(frames: seq<seq<Byte>>, end: End)

  /** The frames of a stream, without any notion of chunks. */
  function Cut(stream: seq<Byte>): Cutting
    decreases |stream|
  {
    if |stream| < 5 then Cutting([], Closed) else
    var keyLen := ReadWord(stream, 1);
    if keyLen + 4 >= WORD then Cutting([], Overrun)
    else if |stream| < 9 + keyLen then Cutting([], Closed) else
    var valueLen := ReadWord(stream, 5 + keyLen);
    var n := 9 + keyLen + valueLen;
    if |stream| < n then Cutting([], Closed) else
    var rest := Cut(stream[n..]);
    Cutting([stream[..n]] + rest.frames, rest.end)
  }

  predicate Sendable(r: Request) {
    |r.key| + 4 < WORD && |r.value| < WORD
  }

  ghost function Stream(requests: seq<Request>): seq<Byte> {
    if requests == [] then [] else EncodedRequest(requests[0]) + Stream(requests[1..])
  }

  /** Each frame is the encoding of the request at the same place. */
  ghost predicate Carries(frames: seq<seq<Byte>>, requests: seq<Request>) {
    && |frames| == |requests|
    && forall i :: 0 <= i < |frames| ==> Sendable(requests[i]) && frames[i] == EncodedRequest(requests[i])
  }

  lemma FrameLayout(frame: seq<Byte>, r: Request)
    requires |frame| >= 9 && ReadWord(frame, 1) == |r.key| && |frame| >= 9 + |r.key|
    requires ReadWord(frame, 5 + |r.key|) == |r.value| && |frame| == 9 + |r.key| + |r.value|
    requires r == Request(frame[0], frame[5..5 + |r.key|], frame[9 + |r.key|..])
    ensures frame == EncodedRequest(r) && DecodedRequest(frame) == Some(r)
  {
    RequestLayout(frame, r);
    RequestUnique(frame, DecodedRequest(frame).value, r);
    hide ReadWord, Word;
    assert |EncodedRequest(r)| == |frame|;
  }

  datatype Frame = Frame(request: Request, bytes: seq<Byte>) | End(end: End) | Rejected

  /** One turn of the loop of `handle_client`: the next message, or why there is none.
      `Rejected` stands for the error response, which is never sent. */
  method ReadRequest(s: Socket) returns (f: Frame)
    requires s.Valid()
    modifies s
    ensures s.Valid() && !f.Rejected?
    ensures f.End? ==> Cut(old(s.Rest())) == Cutting([], f.end)
    ensures f.Frame? ==>
              && Cut(old(s.Rest())) == Cutting([f.bytes] + Cut(s.Rest()).frames, Cut(s.Rest()).end)
              && Sendable(f.request) && f.bytes == EncodedRequest(f.request) && |s.Rest()| < |old(s.Rest())|
  {
    hide *;
    ghost var stream := s.Rest();
    CutEnds(stream);
    var ok, header := ReceiveData(s, 5);
    if !ok {
      return End(Closed);
    }
    var keyLen := Join(header[1], header[2], header[3], header[4]);
    WordAt(stream, header, 0, 1);
    if keyLen + 4 >= WORD {
      return End(Overrun);
    }
    var middle: seq<Byte>;
    ok, middle := ReceiveData(s, keyLen + 4);
    if !ok {
      return End(Closed);
    }
    var valueLen := Join(middle[keyLen], middle[keyLen + 1], middle[keyLen + 2], middle[keyLen + 3]);
    assert middle == stream[5..9 + keyLen];
    WordAt(stream, middle, 5, keyLen);
    var value: seq<Byte> := [];
    if valueLen > 0 {
      ok, value := ReceiveData(s, valueLen);
      if !ok {
        return End(Closed);
      }
    }
    assert stream == header + middle + value + s.Rest();
    FullIsFrame(stream, header, middle, value, s.Rest());
    var full := header + middle + value;
    var request := DecodeRequest(full);
    if request.None? {
      return Rejected;
    }
    return Frame(request.value, full);
  }

  /** The ways in which no further message is found. */
  lemma CutEnds(stream: seq<Byte>)
    ensures |stream| < 5 ==> Cut(stream) == Cutting([], Closed)
    ensures |stream| >= 5 ==>
              var k := ReadWord(stream, 1);
              && (k + 4 >= WORD ==> Cut(stream) == Cutting([], Overrun))
              && (k + 4 < WORD && |stream| < 9 + k ==> Cut(stream) == Cutting([], Closed))
              && (k + 4 < WORD && |stream| >= 9 + k && |stream| < 9 + k + ReadWord(stream, 5 + k) ==>
                    Cut(stream) == Cutting([], Closed))
  {
    hide ReadWord;
  }

  /** A word read from a part is the word at that place of the whole. */
  lemma WordAt(stream: seq<Byte>, part: seq<Byte>, start: nat, offset: nat)
    requires offset + 4 <= |part| && start + |part| <= |stream| && part == stream[start..start + |part|]
    ensures Join(part[offset], part[offset + 1], part[offset + 2], part[offset + 3]) == ReadWord(stream, start + offset)
  {
  }

  /** The loop of `handle_client`: `handled` are the requests passed on, in order. */
  method HandleClient(s: Socket) returns (handled: seq<Request>, rejected: bool, ghost frames: seq<seq<Byte>>, end: End)
    requires s.Valid()
    modifies s
    ensures Cutting(frames, end) == Cut(old(s.Rest()))
    ensures Carries(frames, handled) && !rejected
  {
    hide Cut, EncodedRequest;
    handled, frames := [], [];
    ghost var start := Cut(s.Rest());
    while true
      invariant s.Valid() && Carries(frames, handled)
      invariant start.frames == frames + Cut(s.Rest()).frames && start.end == Cut(s.Rest()).end
      decreases |s.Rest()|
    {
      var f := ReadRequest(s);
      match f
      case End(e) =>
        return handled, false, frames, e;
      case Rejected =>
        return handled, true, frames, Closed;
      case Frame(request, bytes) =>
        handled := handled + [request];
        frames := frames + [bytes];
    }
  }

  lemma FullIsFrame(stream: seq<Byte>, header: seq<Byte>, middle: seq<Byte>, value: seq<Byte>, rest: seq<Byte>)
    requires stream == header + middle + value + rest && |header| == 5
    requires |middle| == Join(header[1], header[2], header[3], header[4]) + 4 < WORD
    requires |value| == Join(middle[|middle| - 4], middle[|middle| - 3], middle[|middle| - 2], middle[|middle| - 1])
    ensures var full := header + middle + value;
            && Cut(stream) == Cutting([full] + Cut(rest).frames, Cut(rest).end)
            && DecodedRequest(full).Some? && Sendable(DecodedRequest(full).value)
                && full == EncodedRequest(DecodedRequest(full).value)
  {
    var full, k := header + middle + value, |middle| - 4;
    assert ReadWord(stream, 1) == k && ReadWord(full, 1) == k;
    assert ReadWord(stream, 5 + k) == |value| && ReadWord(full, 5 + k) == |value|;
    FrameLayout(full, Request(full[0], full[5..5 + k], full[9 + k..]));
    assert stream[..|full|] == full && stream[|full|..] == rest;
  }

  /** A stream of encoded requests is cut back into exactly those requests, and whatever
      follows is cut as if it came first. */
  lemma {:induction false} CutOfStream(requests: seq<Request>, rest: seq<Byte>)
    requires forall r :: r in requests ==> Sendable(r)
    ensures var c := Cut(Stream(requests) + rest);
            && |c.frames| == |requests| + |Cut(rest).frames|
            && Carries(c.frames[..|requests|], requests)
            && c.frames[|requests|..] == Cut(rest).frames && c.end == Cut(rest).end
  {
    if requests == [] {
      assert Stream(requests) + rest == rest;
    } else {
      hide *;
      var r, tail := requests[0], requests[1..];
      StreamSplits(requests, rest);
      assert r in requests && forall q :: q in tail ==> q in requests;
      CutOfStream(tail, rest);
      CutFirst(r, Stream(tail) + rest);
      CarriesOneMore(EncodedRequest(r), r, Cut(Stream(tail) + rest).frames, tail);
      assert requests == [r] + tail;
    }
  }

  lemma StreamSplits(requests: seq<Request>, rest: seq<Byte>)
    requires requests != []
    ensures Stream(requests) + rest == EncodedRequest(requests[0]) + (Stream(requests[1..]) + rest)
  {
    hide EncodedRequest;
  }

  lemma CarriesOneMore(frame: seq<Byte>, r: Request, frames: seq<seq<Byte>>, requests: seq<Request>)
    requires Sendable(r) && frame == EncodedRequest(r) && |requests| <= |frames|
        && Carries(frames[..|requests|], requests)
    ensures Carries(([frame] + frames)[..|requests| + 1], [r] + requests)
    ensures ([frame] + frames)[|requests| + 1..] == frames[|requests|..]
  {
    hide Sendable, EncodedRequest;
    assert ([frame] + frames)[..|requests| + 1] == [frame] + frames[..|requests|];
  }

  lemma CutFirst(r: Request, more: seq<Byte>)
    requires Sendable(r)
    ensures var d := Cut(more);
            Cut(EncodedRequest(r) + more) == Cutting([EncodedRequest(r)] + d.frames, d.end)
  {
    var stream, n := EncodedRequest(r) + more, 9 + |r.key| + |r.value|;
    RequestLayout(stream, r);
    assert StartsWithRequest(stream, r);
    assert stream[n..] == more && stream[..n] == EncodedRequest(r);
  }

  /** Conversely every frame any stream is cut into is the encoding of a request: the
      frames, joined again, are the beginning of the stream. */
  lemma {:induction false} FramesAreEncodings(stream: seq<Byte>) returns (requests: seq<Request>)
    ensures Carries(Cut(stream).frames, requests) && Stream(requests) <= stream
    ensures |requests| == |Cut(stream).frames|
    decreases |stream|
  {
    requests := [];
    if Cut(stream).frames != [] {
      var r, n := FirstFrame(stream);
      var more := FramesAreEncodings(stream[n..]);
      requests := [r] + more;
      assert requests[0] == r && requests[1..] == more;
      StreamSplits(requests, []);
      hide *;
      var frames := Cut(stream[n..]).frames;
      assert frames[..|more|] == frames && ([stream[..n]] + frames)[..|more| + 1] == [stream[..n]] + frames;
      CarriesOneMore(stream[..n], r, frames, more);
      assert Stream(requests) + [] == Stream(requests) && Stream(more) + [] == Stream(more);
      assert stream == stream[..n] + stream[n..];
    }
  }

  lemma FirstFrame(stream: seq<Byte>) returns (r: Request, n: nat)
    requires Cut(stream).frames != []
    ensures 0 < n <= |stream| && Sendable(r) && stream[..n] == EncodedRequest(r)
    ensures Cut(stream).frames == [stream[..n]] + Cut(stream[n..]).frames
  {
    var k := ReadWord(stream, 1);
    n := 9 + k + ReadWord(stream, 5 + k);
    var frame := stream[..n];
    assert ReadWord(frame, 1) == k && ReadWord(frame, 5 + k) == n - 9 - k;
    r := Request(frame[0], frame[5..5 + k], frame[9 + k..]);
    FrameLayout(frame, r);
  }

  // ---------------------------------------------------------------- the client's reply

  /** The response half of `send_request`: header, then payload, then decoding. It
      succeeds exactly when the stream starts with an encoded response, and consumes
      exactly that. */
  method ReceiveResponse(s: Socket) returns (r: Option<Response>)
    requires s.Valid()
    modifies s
    ensures s.Valid() && r == DecodedResponse(old(s.Rest()))
    ensures r.Some? ==> old(s.Rest()) == EncodedResponse(r.value) + s.Rest()
  {
    hide *;
    ghost var stream := s.Rest();
    NoShortResponse(stream);
    var ok, header := ReceiveData(s, 5);
    if !ok {
      return None;
    }
    var valueLen := Join(header[1], header[2], header[3], header[4]);
    WordAt(stream, header, 0, 1);
    var payload: seq<Byte> := [];
    if valueLen > 0 {
      ok, payload := ReceiveData(s, valueLen);
      if !ok {
        return None;
      }
    }
    var full := header + payload;
    assert stream == full + s.Rest();
    WordAt(full, header, 0, 1);
    FullIsResponse(full, payload, s.Rest());
    r := DecodeResponse(full);
  }

  /** A stream too short for its own header decodes to nothing. */
  lemma NoShortResponse(stream: seq<Byte>)
    ensures |stream| < 5 || |stream| < 5 + ReadWord(stream, 1) ==> DecodedResponse(stream) == None
  {
    hide ReadWord;
    forall q | StartsWithResponse(stream, q) ensures ResponseShape(stream, q) {
      ResponseLayout(stream, q);
    }
  }

  lemma FullIsResponse(full: seq<Byte>, payload: seq<Byte>, rest: seq<Byte>)
    requires |full| == 5 + |payload| && full[5..] == payload && ReadWord(full, 1) == |payload|
    ensures DecodedResponse(full).Some? && full == EncodedResponse(DecodedResponse(full).value)
    ensures DecodedResponse(full + rest) == DecodedResponse(full)
  {
    var response, stream := Response(full[0], payload), full + rest;
    assert ReadWord(stream, 1) == ReadWord(full, 1);
    assert stream[5..5 + |payload|] == payload;
    ResponseLayout(full, response);
    ResponseLayout(stream, response);
    ResponseUnique(full, DecodedResponse(full).value, response);
    ResponseUnique(stream, DecodedResponse(stream).value, response);
    hide ReadWord, Word;
    assert |EncodedResponse(response)| == |full|;
  }
}
