/**
 What the programming loops ask of the flash, as sequences of mutations, and what those sequences
 mean: chunked programming is one linear program, and the sector-by-sector plan is a splice that
 is safe to interrupt at any instant.
 */
module ProgramPlan {
  import opened Bytes
  import opened NorFlash

  // ---------------------------------------------------------------------------------------------
  // One call of SpiNor::program

  function ChunkSize(p: Chip, address: nat, remaining: nat): (n: nat)
    ensures n <= remaining && (0 < remaining ==> 0 < n)
    ensures address + n <= Base(address, p.pageSize) + p.pageSize
    ensures 1 + p.addressBytes + n <= FIFO_DEPTH
  {
    Min(MaximumData(p), Min(Base(address, p.pageSize) + p.pageSize - address, remaining))
  }

  function Chunks(p: Chip, address: nat, data: seq<byte>): seq<Mutation>
    decreases |data|
  {
    if data == [] then [] else
      var n := ChunkSize(p, address, |data|);
      [Program(address, data[..n])] + Chunks(p, address + n, data[n..])
  }

  lemma ReplayFirst(p: Chip, c: Cells, m: Mutation, ms: seq<Mutation>)
    ensures Replay(p, c, [m] + ms) == Replay(p, Apply(p, c, m), ms)
  {
    ReplayConcat(p, c, [m], ms);
    ReplayOne(p, c, [], m);
    assert [] + [m] == [m];
  }

  /** Split at page boundaries and at the FIFO size, programming is still one linear AND. */
  lemma {:induction false} ChunksAreLinear(p: Chip, c: Cells, address: nat, data: seq<byte>)
    requires address + |data| <= |c.mem|
    ensures Replay(p, c, Chunks(p, address, data)) == c.(mem := LinearProgram(c.mem, address, data))
    decreases |data|
  {
    hide LinearProgram, ChunkSize, Geometry, Replay, Apply;
    if data == [] {
      NothingIsLinear(p, c, address, data);
    } else {
      var n := ChunkSize(p, address, |data|);
      var m, rest := Program(address, data[..n]), Chunks(p, address + n, data[n..]);
      calc {
        Replay(p, c, Chunks(p, address, data));
      ==
        Replay(p, c, [m] + rest);
      ==  { ReplayFirst(p, c, m, rest); ApplyFits(p, c, address, data[..n]); }
        Replay(p, c.(mem := LinearProgram(c.mem, address, data[..n])), rest);
      ==  { ChunksAreLinear(p, c.(mem := LinearProgram(c.mem, address, data[..n])), address + n, data[n..]); }
        c.(mem := LinearProgram(LinearProgram(c.mem, address, data[..n]), address + n, data[n..]));
      ==  { LinearSplit(c.mem, address, data, n); }
        c.(mem := LinearProgram(c.mem, address, data));
      }
    }
  }

  lemma NothingIsLinear(p: Chip, c: Cells, address: nat, data: seq<byte>)
    requires address <= |c.mem| && data == []
    ensures Replay(p, c, []) == c.(mem := LinearProgram(c.mem, address, data))
  {
    assert LinearProgram(c.mem, address, data) == c.mem;
  }

  lemma ApplyFits(p: Chip, c: Cells, address: nat, data: seq<byte>)
    requires address + |data| <= |c.mem|
    requires address + |data| <= Base(address, p.pageSize) + p.pageSize
    ensures Apply(p, c, Program(address, data)) == c.(mem := LinearProgram(c.mem, address, data))
  {
    PageProgramIsLinear(c.mem, address, data, p.pageSize);
  }

  lemma LinearSplit(mem: seq<byte>, at: nat, data: seq<byte>, n: nat)
    requires at + |data| <= |mem| && n <= |data|
    ensures LinearProgram(LinearProgram(mem, at, data[..n]), at + n, data[n..]) == LinearProgram(mem, at, data)
  {
    var l, r := LinearProgram(LinearProgram(mem, at, data[..n]), at + n, data[n..]), LinearProgram(mem, at, data);
    forall i | 0 <= i < |mem|
      ensures l[i] == r[i]
    {
      assert at + n <= i < at + |data| ==> data[n..][i - (at + n)] == data[i - at];
    }
  }

  /** On erased cells the result of programming is the data itself. */
  lemma ChunksOnBlank(p: Chip, c: Cells, address: nat, data: seq<byte>)
    requires address + |data| <= |c.mem|
    requires forall i :: address <= i < address + |data| ==> c.mem[i] == 0xff
    ensures Replay(p, c, Chunks(p, address, data)) == c.(mem := Paste(c.mem, address, data))
  {
    ChunksAreLinear(p, c, address, data);
    assert LinearProgram(c.mem, address, data) == Paste(c.mem, address, data);
  }

  /** The commands tile the data in order: nothing is sent twice and nothing is left out. */
  ghost predicate Tiles(ms: seq<Mutation>, address: nat, data: seq<byte>)
    decreases |ms|
  {
    if ms == [] then data == [] else
      && ms[0].Program? && ms[0].address == address
      && 0 < |ms[0].data| && ms[0].data <= data
      && Tiles(ms[1..], address + |ms[0].data|, data[|ms[0].data|..])
  }

  /** Every command fits the FIFO and stays inside the page it starts in. */
  ghost predicate FitsCommand(p: Chip, m: Mutation)
  {
    && m.Program? && m.data != []
    && 1 + p.addressBytes + |m.data| <= FIFO_DEPTH
    && m.address + |m.data| <= Base(m.address, p.pageSize) + p.pageSize
  }

  lemma {:induction false} ChunksTile(p: Chip, address: nat, data: seq<byte>)
    ensures Tiles(Chunks(p, address, data), address, data)
    ensures forall m :: m in Chunks(p, address, data) ==>
      FitsCommand(p, m) && address <= m.address && m.address + |m.data| <= address + |data|
    decreases |data|
  {
    hide ChunkSize, Geometry;
    if data != [] {
      var n := ChunkSize(p, address, |data|);
      var rest := Chunks(p, address + n, data[n..]);
      ChunksTile(p, address + n, data[n..]);
      assert Chunks(p, address, data)[1..] == rest;
    }
  }
}
