/** `_IterableBytesReader`: a file-like cursor over an iterable of byte chunks. */
module BytesReader {
  import opened Bytes
  import opened Options

  /** What the iterable yields; anything but bytes makes read() raise TypeError. */
  datatype Chunk = Data(bytes: Bytes) | NotBytes

  /** The bytes of the chunks up to the first one that is not bytes. */
  function Flat(chunks: seq<Chunk>): Bytes {
    if chunks == [] || chunks[0].NotBytes? then [] else chunks[0].bytes + Flat(chunks[1..])
  }

  /** The chunks after the first one that is not bytes. */
  function AfterBad(chunks: seq<Chunk>): seq<Chunk> {
    if chunks == [] then [] else if chunks[0].NotBytes? then chunks[1..] else AfterBad(chunks[1..])
  }

  predicate Clean(chunks: seq<Chunk>) { forall c :: c in chunks ==> c.Data? }

  /** What read(n) returns on a flat input: n bytes as far as they last, all of
      them for a negative n. */
  function Take(input: Bytes, n: int): Bytes { if 0 <= n <= |input| then input[..n] else input }

  function Rest(input: Bytes, n: int): Bytes { if 0 <= n <= |input| then input[n..] else [] }

  class IterableBytesReader {
    var pending: seq<Chunk>   // what the iterator has not yielded yet
    var buffer: Bytes

    constructor (chunks: seq<Chunk>)
      ensures pending == chunks && buffer == []
    { pending, buffer := chunks, []; }

    /** The unread input, up to the first bad chunk. */
    function Unread(): Bytes
      reads this
    { buffer + Flat(pending) }

    /** Refines a flat cursor. None is the TypeError; it is raised exactly when
        the read runs into a chunk that is not bytes. */
    method Read(n: int) returns (out: Option<Bytes>)
      modifies this
      ensures out.None? <==> !Clean(old(pending)) && (n < 0 || |old(Unread())| < n)
      ensures out.Some? ==> out.value == Take(old(Unread()), n) && Unread() == Rest(old(Unread()), n)
      ensures out.Some? ==>
        && out.value + Unread() == old(Unread())
        && |out.value| == if 0 <= n <= |old(Unread())| then n else |old(Unread())|
      ensures out.Some? && Clean(old(pending)) ==> Clean(pending)
      // a raise skips the bad chunk; a bounded read keeps what it has gathered,
      // an unbounded one has already given it up
      ensures out.None? ==> pending == AfterBad(old(pending))
      ensures out.None? ==> buffer == if n < 0 then [] else old(Unread())
    {
      if n < 0 {
        out := ReadAll();
        return;
      }
      while |buffer| < n && pending != []
        invariant Unread() == old(Unread()) && AfterBad(pending) == AfterBad(old(pending))
        invariant Clean(pending) <==> Clean(old(pending))
        decreases |pending|
      {
        var chunk := pending[0];
        assert pending == [chunk] + pending[1..] && chunk in pending;
        assert chunk.NotBytes? ==> !Clean(pending);
        pending := pending[1..];
        if chunk.NotBytes? {
          return None;
        }
        buffer := buffer + chunk.bytes;
        assert buffer + Flat(pending) == old(Unread());
      }
      var size := if |buffer| < n then |buffer| else n;
      ghost var gathered := buffer;
      out := Some(buffer[..size]);
      buffer := buffer[size..];
      assert gathered + Flat(pending) == old(Unread());
    }

    method ReadAll() returns (out: Option<Bytes>)
      modifies this
      ensures out.None? <==> !Clean(old(pending))
      ensures out.Some? ==> out.value == old(Unread()) && pending == []
      ensures out.None? ==> pending == AfterBad(old(pending))
      ensures buffer == []
    {
      var parts := buffer;
      buffer := [];
      while pending != []
        invariant parts + Flat(pending) == old(Unread()) && AfterBad(pending) == AfterBad(old(pending))
        invariant Clean(pending) <==> Clean(old(pending))
        invariant buffer == []
        decreases |pending|
      {
        var chunk := pending[0];
        assert pending == [chunk] + pending[1..] && chunk in pending;
        assert chunk.NotBytes? ==> !Clean(pending);
        pending := pending[1..];
        if chunk.NotBytes? {
          return None;
        }
        parts := parts + chunk.bytes;
      }
      out := Some(parts);
    }

    /** Any sequence of reads over clean chunks. */
    method ReadSizes(sizes: seq<int>) returns (results: seq<Bytes>)
      requires Clean(pending)
      modifies this
      ensures results == Results(old(Unread()), sizes) && Unread() == Left(old(Unread()), sizes)
      ensures Clean(pending)
    {
      results := [];
      for k := 0 to |sizes|
        invariant Clean(pending)
        invariant results == Results(old(Unread()), sizes[..k])
        invariant Unread() == Left(old(Unread()), sizes[..k])
      {
        assert sizes[..k + 1][..k] == sizes[..k];
        var out := Read(sizes[k]);
        results := results + [out.value];
      }
      assert sizes[..|sizes|] == sizes;
    }
  }

  /** The flat cursor after a sequence of reads, and what the reads returned. */
  function Left(input: Bytes, sizes: seq<int>): Bytes {
    if sizes == [] then input else Rest(Left(input, sizes[..|sizes| - 1]), sizes[|sizes| - 1])
  }

  function Results(input: Bytes, sizes: seq<int>): seq<Bytes> {
    if sizes == [] then []
    else Results(input, sizes[..|sizes| - 1]) + [Take(Left(input, sizes[..|sizes| - 1]), sizes[|sizes| - 1])]
  }

  function Joined(parts: seq<Bytes>): Bytes {
    if parts == [] then [] else Joined(parts[..|parts| - 1]) + parts[|parts| - 1]
  }

  /** The k-th chunk is the first that is not bytes. */
  ghost predicate FirstBad(chunks: seq<Chunk>, k: nat) {
    k < |chunks| && chunks[k].NotBytes? && Clean(chunks[..k])
  }

  ghost function BytesOf(chunks: seq<Chunk>): seq<Bytes>
    requires Clean(chunks)
  {
    seq(|chunks|, i requires 0 <= i < |chunks| && chunks[i] in chunks => chunks[i].bytes)
  }

  lemma JoinedCons(part: Bytes, parts: seq<Bytes>)
    ensures Joined([part] + parts) == part + Joined(parts)
  {
    if parts == [] {
      assert [part] + parts == [part] && [part][..0] == [];
      assert part + Joined(parts) == part;
    } else {
      var init := parts[..|parts| - 1];
      assert ([part] + parts)[..|parts|] == [part] + init;
      JoinedCons(part, init);
    }
  }

  /** Clean chunks read as their bytes, joined. */
  lemma {:induction false} CleanIsJoined(chunks: seq<Chunk>)
    requires Clean(chunks)
    ensures Flat(chunks) == Joined(BytesOf(chunks))
  {
    if chunks != [] {
      var rest := chunks[1..];
      assert forall c :: c in rest ==> c in chunks;
      assert chunks[0] in chunks;
      CleanIsJoined(rest);
      assert BytesOf(chunks) == [chunks[0].bytes] + BytesOf(rest);
      JoinedCons(chunks[0].bytes, BytesOf(rest));
    }
  }

  /** A bad chunk hides what follows it until it is skipped. */
  lemma {:induction false} BadChunkCuts(chunks: seq<Chunk>, k: nat)
    requires FirstBad(chunks, k)
    ensures Flat(chunks) == Joined(BytesOf(chunks[..k])) && AfterBad(chunks) == chunks[k + 1..]
  {
    if k == 0 {
      assert BytesOf(chunks[..0]) == [];
    } else {
      var rest := chunks[1..];
      assert chunks[..k][0] in chunks[..k] && rest[..k - 1] == chunks[..k][1..];
      assert forall c :: c in rest[..k - 1] ==> c in chunks[..k];
      BadChunkCuts(rest, k - 1);
      assert BytesOf(chunks[..k]) == [chunks[0].bytes] + BytesOf(rest[..k - 1]);
      JoinedCons(chunks[0].bytes, BytesOf(rest[..k - 1]));
    }
  }

  lemma TakeThenRest(input: Bytes, n: int)
    ensures Take(input, n) + Rest(input, n) == input
  {
  }

  lemma JoinedSnoc(parts: seq<Bytes>, part: Bytes)
    ensures Joined(parts + [part]) == Joined(parts) + part
  {
    assert (parts + [part])[..|parts|] == parts;
  }

  /** Whatever the chunking and the read sizes, the results so far followed by
      what is left are the whole input. */
  lemma {:induction false} NothingIsLost(input: Bytes, sizes: seq<int>)
    ensures Joined(Results(input, sizes)) + Left(input, sizes) == input
  {
    if sizes != [] {
      var init, n := sizes[..|sizes| - 1], sizes[|sizes| - 1];
      NothingIsLost(input, init);
      OneMoreRead(Joined(Results(input, init)), Left(input, init), n);
      JoinedSnoc(Results(input, init), Take(Left(input, init), n));
    }
  }

  lemma OneMoreRead(read: Bytes, left: Bytes, n: int)
    ensures (read + Take(left, n)) + Rest(left, n) == read + left
  {
    TakeThenRest(left, n);
    assert (read + Take(left, n)) + Rest(left, n) == read + (Take(left, n) + Rest(left, n));
  }

  /** A read returns min(n, remaining) bytes, so an empty result of a positive
      read means the end of the input, for this read and all later ones. */
  lemma {:induction false} EmptyReadMeansEnd(input: Bytes, sizes: seq<int>, later: seq<int>)
    requires sizes != [] && sizes[|sizes| - 1] > 0
    requires Results(input, sizes)[|Results(input, sizes)| - 1] == []
    ensures Joined(Results(input, sizes)) == input
    ensures Left(input, sizes + later) == []
  {
    NothingIsLost(input, sizes);
    if later != [] {
      var whole := sizes + later;
      assert whole[..|whole| - 1] == sizes + later[..|later| - 1];
      EmptyReadMeansEnd(input, sizes, later[..|later| - 1]);
    } else {
      assert sizes + later == sizes;
    }
  }
}
