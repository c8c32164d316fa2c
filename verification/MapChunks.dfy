/** For which header streams the map reader's deliveries depend on how the bytes arrive. */
module MapChunks {
  import opened Bytes
  import opened Map32

  /** The reader asks for no more than completes the header it is in. */
  predicate Asked(r: MapReader, chunks: seq<seq<byte>>)
    decreases |chunks|
  {
    |r.held| < HEADER
    && (chunks == [] || (|r.held| + |chunks[0]| <= HEADER && Asked(MapChunk(r, chunks[0]), chunks[1..])))
  }

  function MapRun(r: MapReader, chunks: seq<seq<byte>>): MapReader
    requires Asked(r, chunks)
    decreases |chunks|
  {
    if chunks == [] then r else MapRun(MapChunk(r, chunks[0]), chunks[1..])
  }

  const NEW := MapReader([], [])

  /** A way in which the bytes `s` can arrive. */
  predicate Arrives(r: MapReader, chunks: seq<seq<byte>>, s: seq<byte>) {
    Asked(r, chunks) && Concat(chunks) == s
  }

  /** No header with size zero is followed by anything. */
  predicate Settled(s: seq<byte>)
    decreases |s|
  {
    |s| <= 4 || (s[..4] != ZERO_WORD && (|s| >= HEADER ==> Settled(s[HEADER..])))
  }

  /** What a settled stream leads to. */
  function Expected(out: seq<seq<byte>>, s: seq<byte>): MapReader
    decreases |s|
  {
    if |s| >= HEADER then Expected(out + [s[..HEADER]], s[HEADER..])
    else if s == ZERO_WORD then MapReader([], out + [[]])
    else MapReader(s, out)
  }

  lemma {:induction false} NothingMore(r: MapReader, chunks: seq<seq<byte>>)
    requires Asked(r, chunks) && Concat(chunks) == [] && r.held != ZERO_WORD
    ensures MapRun(r, chunks) == r
    decreases |chunks|
  {
    if chunks != [] {
      assert chunks[0] == [] && Concat(chunks[1..]) == [];
      assert r.held + [] == r.held;
      NothingMore(r, chunks[1..]);
    }
  }

  lemma {:induction false} SettledRun(r: MapReader, chunks: seq<seq<byte>>)
    requires Asked(r, chunks) && r.held != ZERO_WORD && Settled(r.held + Concat(chunks))
    ensures MapRun(r, chunks) == Expected(r.out, r.held + Concat(chunks))
    decreases |chunks|
  {
    if chunks == [] {
      assert r.held + Concat(chunks) == r.held;
    } else {
      var held, rest := r.held + chunks[0], Concat(chunks[1..]);
      var r' := MapChunk(r, chunks[0]);
      assert r.held + Concat(chunks) == held + rest;
      if held == ZERO_WORD {
        assert (held + rest)[..4] == ZERO_WORD;
        NothingMore(r', chunks[1..]);
      } else {
        assert |held| == HEADER ==> (held + rest)[..HEADER] == held && (held + rest)[HEADER..] == [] + rest;
        SettledRun(r', chunks[1..]);
      }
    }
  }

  function Bytewise(s: seq<byte>): seq<seq<byte>> {
    if s == [] then [] else [[s[0]]] + Bytewise(s[1..])
  }

  lemma {:induction false} BytewiseArrives(r: MapReader, s: seq<byte>)
    requires |r.held| < HEADER
    ensures Arrives(r, Bytewise(s), s)
    decreases |s|
  {
    if s != [] {
      var all := Bytewise(s);
      assert all[0] == [s[0]] && all[1..] == Bytewise(s[1..]);
      BytewiseArrives(MapChunk(r, [s[0]]), s[1..]);
      assert [s[0]] + s[1..] == s;
    }
  }

  lemma {:induction false} RunGrows(r: MapReader, chunks: seq<seq<byte>>)
    requires Asked(r, chunks)
    ensures r.out <= MapRun(r, chunks).out
    decreases |chunks|
  {
    if chunks != [] {
      RunGrows(MapChunk(r, chunks[0]), chunks[1..]);
    }
  }

  /** One chunk, and the rest a byte at a time. */
  lemma FirstThenBytes(r: MapReader, s: seq<byte>, n: nat) returns (chunks: seq<seq<byte>>)
    requires n <= |s| && |r.held| + n <= HEADER && |r.held| < HEADER
    ensures Arrives(r, chunks, s) && MapChunk(r, s[..n]).out <= MapRun(r, chunks).out
    ensures n == |s| ==> MapRun(r, chunks) == MapChunk(r, s)
  {
    chunks := [s[..n]] + Bytewise(s[n..]);
    var r' := MapChunk(r, s[..n]);
    assert chunks[0] == s[..n] && chunks[1..] == Bytewise(s[n..]);
    assert s[..n] + s[n..] == s;
    BytewiseArrives(r', s[n..]);
    RunGrows(r', chunks[1..]);
    assert n == |s| ==> s[..n] == s;
  }

  /** Where something follows a size of zero there are two ways that differ. */
  lemma {:induction false} TwoWays(out: seq<seq<byte>>, s: seq<byte>) returns (a: seq<seq<byte>>, b: seq<seq<byte>>)
    requires !Settled(s)
    ensures Arrives(MapReader([], out), a, s) && Arrives(MapReader([], out), b, s)
    ensures MapRun(MapReader([], out), a) != MapRun(MapReader([], out), b)
    decreases |s|
  {
    var r := MapReader([], out);
    if s[..4] == ZERO_WORD {
      var n := if |s| < HEADER then |s| else HEADER;
      a := FirstThenBytes(r, s, 4);
      b := FirstThenBytes(r, s, n);
      assert [] + s[..4] == ZERO_WORD && [] + s[..n] == s[..n];
      assert MapChunk(r, s[..4]).out[|out|] == [];
      assert n == HEADER ==> MapChunk(r, s[..n]).out[|out|] == s[..n];
    } else {
      var first, rest := s[..HEADER], s[HEADER..];
      assert [] + first == first && MapChunk(r, first) == MapReader([], out + [first]);
      var a', b' := TwoWays(out + [first], rest);
      a, b := [first] + a', [first] + b';
      assert a[1..] == a' && b[1..] == b' && first + rest == s;
    }
  }

  /** The result is the same however the bytes arrive exactly when nothing follows a header with size zero. */
  lemma ChunkingMattersIff(s: seq<byte>)
    ensures (forall a, b | Arrives(NEW, a, s) && Arrives(NEW, b, s) :: MapRun(NEW, a) == MapRun(NEW, b)) <==> Settled(s)
  {
    if Settled(s) {
      forall a, b | Arrives(NEW, a, s) && Arrives(NEW, b, s)
        ensures MapRun(NEW, a) == MapRun(NEW, b)
      {
        assert [] + s == s;
        SettledRun(NEW, a);
        SettledRun(NEW, b);
      }
    } else {
      var a, b := TwoWays([], s);
    }
  }
}
