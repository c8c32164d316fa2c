/** The map protocol: requests are a 32-bit size and a 32-byte identifier, 36 bytes in all, and the
    payload stays in the stream for the handler. */
module Map32 {
  import opened Bytes
  import opened Framing

  const HEADER: nat := 36
  const ZERO_WORD: seq<byte> := [0, 0, 0, 0]

  /** The whole headers in a stream, and what is left over. */
  function Blocks(s: seq<byte>): seq<seq<byte>>
    decreases |s|
  {
    if |s| < HEADER then [] else [s[..HEADER]] + Blocks(s[HEADER..])
  }

  function Tail(s: seq<byte>): (r: seq<byte>)
    ensures |r| < HEADER
    decreases |s|
  {
    if |s| < HEADER then s else Tail(s[HEADER..])
  }

  /** No header announces a size of zero: four zero bytes double as a ping. */
  predicate Regular(s: seq<byte>)
    decreases |s|
  {
    |s| < 4 || (s[..4] != ZERO_WORD && (|s| < HEADER || Regular(s[HEADER..])))
  }

  lemma {:induction false} BlocksAppend(s: seq<byte>, chunk: seq<byte>)
    requires |Tail(s)| + |chunk| <= HEADER
    ensures var held := Tail(s) + chunk;
            && Tail(s + chunk) == (if |held| == HEADER then [] else held)
            && Blocks(s + chunk) == Blocks(s) + (if |held| == HEADER then [held] else [])
    ensures Regular(s + chunk) ==> Regular(s) && (|Tail(s) + chunk| >= 4 ==> (Tail(s) + chunk)[..4] != ZERO_WORD)
    decreases |s|
  {
    if |s| < HEADER {
      if |s + chunk| == HEADER {
        assert (s + chunk)[..HEADER] == s + chunk && (s + chunk)[HEADER..] == [];
      }
      if |s| >= 4 {
        assert (s + chunk)[..4] == s[..4];
      }
    } else {
      assert (s + chunk)[HEADER..] == s[HEADER..] + chunk;
      assert (s + chunk)[..HEADER] == s[..HEADER] && (s + chunk)[..4] == s[..4];
      BlocksAppend(s[HEADER..], chunk);
    }
  }

  lemma {:induction false} RegularPrefix(s: seq<byte>, rest: seq<byte>)
    requires Regular(s + rest)
    ensures Regular(s)
    decreases |s|
  {
    if |s| >= 4 {
      assert (s + rest)[..4] == s[..4];
    }
    if |s| >= HEADER {
      assert (s + rest)[HEADER..] == s[HEADER..] + rest;
      RegularPrefix(s[HEADER..], rest);
    }
  }

  /** `Map32::DecodeHeader`. */
  function DecodeHeader(block: seq<byte>): (nat, seq<byte>)
    requires 4 <= |block|
  {
    (FromLE32(block[..4]), block[4..])
  }

  /** What `MsgConnection::Transact32` writes. */
  function Transact32(id: seq<byte>, payload: seq<byte>): seq<byte>
    requires |id| == 32 && |payload| < TWO_32
  {
    LE32(|payload|) + id + payload
  }

  /** The blocking client and the bias-32 client writer put the same bytes on the wire. */
  lemma ClientsAgree(id: seq<byte>, payload: seq<byte>)
    requires |id| == 32 && |payload| < TWO_32
    ensures Frame(32, id + payload) == Transact32(id, payload)
  {
    assert (|id + payload| - 32) % TWO_32 == |payload|;
    assert SizePrefix(32, |id + payload|) == LE32(|payload|);
  }

  lemma NonZeroWord(word: seq<byte>)
    requires |word| == 4 && FromLE32(word) != 0
    ensures word != ZERO_WORD
  {
    assert FromLE32(ZERO_WORD) == 0;
  }

  /** The server's fixed-size header read splits a non-empty request exactly in front of the
      payload and recovers its size and identifier. */
  lemma HeaderRecovered(id: seq<byte>, payload: seq<byte>)
    requires |id| == 32 && 0 < |payload| < TWO_32
    ensures var stream := Transact32(id, payload);
            && Regular(stream[..HEADER])
            && Blocks(stream[..HEADER]) == [stream[..HEADER]] && Tail(stream[..HEADER]) == []
            && DecodeHeader(stream[..HEADER]) == (|payload|, id)
            && stream[HEADER..] == payload
  {
    var size := LE32(|payload|);
    var block := Transact32(id, payload)[..HEADER];
    assert block == size + id && block[..4] == size && block[4..] == id;
    LE32RoundTrip(|payload|);
    NonZeroWord(size);
    assert block[..HEADER] == block && block[HEADER..] == [];
    assert Blocks(block[HEADER..]) == [];
  }

  /** How the header reader treats one received chunk. */
  datatype MapReader = MapReader(held: seq<byte>, out: seq<seq<byte>>)

  function MapChunk(r: MapReader, chunk: seq<byte>): MapReader
    requires |r.held| + |chunk| <= HEADER
  {
    var held := r.held + chunk;
    if held == ZERO_WORD then MapReader([], r.out + [[]])
    else if |held| == HEADER then MapReader([], r.out + [held])
    else MapReader(held, r.out)
  }

  /** With a size of zero the outcome depends on how the bytes arrive: a ping and a stray byte, or
      five bytes of an unfinished header. */
  lemma ZeroSizeDependsOnChunking(b: byte)
    ensures var start := MapReader([], []);
            MapChunk(MapChunk(start, ZERO_WORD), [b]) != MapChunk(start, ZERO_WORD + [b])
  {
    assert [] + ZERO_WORD == ZERO_WORD;
    assert |MapChunk(MapReader([], []), ZERO_WORD + [b]).out| == 0;
  }

  /** What the header reader delivered, as the bytes it took: a ping stands for four zero bytes. */
  function Taken(delivered: seq<seq<byte>>): seq<byte> {
    if delivered == [] then [] else Taken(delivered[..|delivered| - 1]) + Took(delivered[|delivered| - 1])
  }

  function Took(d: seq<byte>): seq<byte> {
    if d == [] then ZERO_WORD else d
  }

  lemma TakenSnoc(delivered: seq<seq<byte>>, d: seq<byte>)
    ensures Taken(delivered + [d]) == Taken(delivered) + Took(d)
  {
    assert (delivered + [d])[..|delivered|] == delivered;
  }

  /** Deliveries and held bytes spell the bytes received, and as long as no header announces size zero they are
      the headers of the stream and its unfinished one. */
  ghost predicate InStep(received: seq<byte>, r: MapReader) {
    && received == Taken(r.out) + r.held
    && (Regular(received) ==> r.out == Blocks(received) && r.held == Tail(received))
  }

  lemma ChunkInStep(received: seq<byte>, r: MapReader, chunk: seq<byte>)
    requires InStep(received, r) && |r.held| + |chunk| <= HEADER && |r.held| < HEADER
    ensures InStep(received + chunk, MapChunk(r, chunk))
  {
    hide Blocks, Tail, Regular, Taken;
    var held := r.held + chunk;
    if Regular(received + chunk) {
      RegularPrefix(received, chunk);
      BlocksAppend(received, chunk);
    }
    TakenSnoc(r.out, []);
    TakenSnoc(r.out, held);
    assert Taken(r.out) + r.held + chunk == Taken(r.out) + held;
    assert Taken(r.out) + held + [] == Taken(r.out) + held;
    assert held == ZERO_WORD ==> held[..4] == ZERO_WORD;
  }

  lemma NothingTaken()
    ensures InStep([], MapReader([], []))
  {
  }

  // ----- whole connections: headers with their payloads in between

  datatype Request = Request(id: seq<byte>, payload: seq<byte>)

  predicate ValidRequest(q: Request) {
    |q.id| == 32 && 0 < |q.payload| < TWO_32
  }

  predicate AllValid(reqs: seq<Request>) {
    forall q | q in reqs :: ValidRequest(q)
  }

  function Header(q: Request): (r: seq<byte>)
    requires ValidRequest(q)
    ensures |r| == HEADER
  {
    LE32(|q.payload|) + q.id
  }

  /** What a client sends for its requests, one after the other. */
  function Stream(reqs: seq<Request>): seq<byte>
    requires AllValid(reqs)
  {
    if reqs == [] then []
    else
      assert reqs[0] in reqs;
      Transact32(reqs[0].id, reqs[0].payload) + Stream(reqs[1..])
  }

  lemma {:induction false} StreamAppend(a: seq<Request>, b: seq<Request>)
    requires AllValid(a) && AllValid(b)
    ensures AllValid(a + b) && Stream(a + b) == Stream(a) + Stream(b)
    decreases |a|
  {
    hide Transact32, ValidRequest;
    if a == [] {
      assert a + b == b;
    } else {
      assert (a + b)[1..] == a[1..] + b;
      StreamAppend(a[1..], b);
    }
  }

  lemma TransactParts(q: Request)
    requires ValidRequest(q)
    ensures Transact32(q.id, q.payload) == Header(q) + q.payload
  {
    hide LE32;
  }

  lemma Regroup(a: seq<byte>, b: seq<byte>, c: seq<byte>)
    ensures a + b + c == a + (b + c)
  {
  }

  lemma StreamFirst(reqs: seq<Request>)
    requires AllValid(reqs) && reqs != []
    ensures ValidRequest(reqs[0]) && Stream(reqs) == Header(reqs[0]) + (reqs[0].payload + Stream(reqs[1..]))
    ensures Stream([reqs[0]]) == Header(reqs[0]) + reqs[0].payload
  {
    hide Transact32, Header;
    assert reqs[0] in reqs;
    var q := reqs[0];
    TransactParts(q);
    Regroup(Header(q), q.payload, Stream(reqs[1..]));
    assert [q][1..] == [];
    assert Transact32(q.id, q.payload) + [] == Transact32(q.id, q.payload);
  }

  /** The stream from request `i` on: its header, its payload, and the requests after it. */
  lemma StreamFrom(reqs: seq<Request>, i: nat)
    requires AllValid(reqs) && i < |reqs|
    ensures AllValid(reqs[..i]) && AllValid(reqs[i + 1..]) && ValidRequest(reqs[i])
    ensures Stream(reqs) == Stream(reqs[..i]) + (Header(reqs[i]) + (reqs[i].payload + Stream(reqs[i + 1..])))
    ensures Stream(reqs[..i + 1]) == Stream(reqs[..i]) + (Header(reqs[i]) + reqs[i].payload)
  {
    hide Stream, Header, ValidRequest;
    var head, tail := reqs[..i], reqs[i..];
    assert reqs == head + tail && reqs[..i + 1] == head + [reqs[i]];
    assert tail[0] == reqs[i] && tail[1..] == reqs[i + 1..];
    AllValidParts(reqs, i);
    StreamAppend(head, tail);
    StreamAppend(head, [reqs[i]]);
    StreamFirst(tail);
  }

  lemma AllValidParts(reqs: seq<Request>, i: nat)
    requires AllValid(reqs) && i < |reqs|
    ensures AllValid(reqs[..i]) && AllValid(reqs[i..]) && AllValid(reqs[i + 1..]) && AllValid([reqs[i]]) && ValidRequest(reqs[i])
  {
    hide ValidRequest;
  }

  /** In front of a request with payload the reader can deliver only its header. */
  lemma HeaderIsNext(d: seq<byte>, q: Request, rest: seq<byte>, after: seq<byte>)
    requires ValidRequest(q) && (d == [] || |d| == HEADER)
    requires Took(d) + rest == Header(q) + after
    ensures d == Header(q) && rest == after && DecodeHeader(d) == (|q.payload|, q.id)
  {
    var size := LE32(|q.payload|);
    LE32RoundTrip(|q.payload|);
    NonZeroWord(size);
    assert (Header(q) + after)[..4] == size;
    assert (Took(d) + rest)[..4] == Took(d)[..4];
    assert Took([])[..4] == ZERO_WORD;
    assert (Took(d) + rest)[..HEADER] == d && (Header(q) + after)[..HEADER] == Header(q);
    assert (Took(d) + rest)[HEADER..] == rest && (Header(q) + after)[HEADER..] == after;
    assert Header(q)[..4] == size && Header(q)[4..] == q.id;
  }

  lemma SameFront(a: seq<byte>, b: seq<byte>, c: seq<byte>)
    requires a + b == a + c
    ensures b == c
  {
    assert (a + b)[|a|..] == b && (a + c)[|a|..] == c;
  }

  /** After `i` requests the next delivery is the header of request `i`, and the stream stands at its payload. */
  lemma NextDelivery(reqs: seq<Request>, i: nat, d: seq<byte>, rest: seq<byte>)
    requires AllValid(reqs) && i <= |reqs| && (d == [] || |d| == HEADER)
    requires AllValid(reqs[..i]) && Stream(reqs[..i]) + (Took(d) + rest) == Stream(reqs)
    ensures i < |reqs| && ValidRequest(reqs[i]) && AllValid(reqs[i + 1..])
    ensures d == Header(reqs[i]) && rest == reqs[i].payload + Stream(reqs[i + 1..])
    ensures DecodeHeader(d) == (|reqs[i].payload|, reqs[i].id)
  {
    hide Stream, Header, ValidRequest, DecodeHeader;
    if i == |reqs| {
      assert reqs[..i] == reqs;
      SameFront(Stream(reqs), Took(d) + rest, []);
    } else {
      StreamFrom(reqs, i);
      var after := reqs[i].payload + Stream(reqs[i + 1..]);
      SameFront(Stream(reqs[..i]), Took(d) + rest, Header(reqs[i]) + after);
      HeaderIsNext(d, reqs[i], rest, after);
    }
  }

  /** The same for what was consumed up to a mark and since. */
  lemma ServesNext(reqs: seq<Request>, i: nat, d: seq<byte>, served: seq<byte>, since: seq<byte>, rest: seq<byte>)
    requires AllValid(reqs) && i <= |reqs| && (d == [] || |d| == HEADER)
    requires AllValid(reqs[..i]) && served == Stream(reqs[..i]) && served + since + rest == Stream(reqs)
    requires InStep(since, MapReader([], [d]))
    ensures i < |reqs| && ValidRequest(reqs[i]) && AllValid(reqs[i + 1..])
    ensures served + since == Stream(reqs[..i]) + Header(reqs[i]) && rest == reqs[i].payload + Stream(reqs[i + 1..])
    ensures |d| == HEADER && DecodeHeader(d) == (|reqs[i].payload|, reqs[i].id)
  {
    OneTaken(since, d);
    hide Stream, Header, ValidRequest, DecodeHeader, Took, InStep;
    Regroup(served, since, rest);
    NextDelivery(reqs, i, d, rest);
    TookHeader(d);
  }

  lemma OneTaken(since: seq<byte>, d: seq<byte>)
    requires InStep(since, MapReader([], [d]))
    ensures since == Took(d)
  {
    TakenSnoc([], d);
    assert [] + [d] == [d] && Taken([]) == [];
    hide Took;
  }

  lemma TookHeader(d: seq<byte>)
    requires d != []
    ensures Took(d) == d
  {
  }
}
