/** The two ExtFileStream ends CopyFile uses: a reader over a file's bytes and a
    writer that appends whatever it is given. The reader keeps the contract of
    Stream.Read: a call delivers the next bytes of the file, at least one and at
    most the requested count, and delivers 0 only at the end of the file (or for a
    request of 0). How many it delivers is the stream's choice; the sizes it picks
    are a parameter, and what is proved about the copy holds for every choice. The
    stream implementation itself is not part of this model. */
module Streams {

  function Min(a: nat, b: nat): nat {
    if a <= b then a else b
  }

  class ReadStream {
    const data: seq<bv8>
    /** The size the stream picks for each successive read. A pick of 0, one larger
        than the read may deliver, or a read past the end of the picks, delivers as
        much as the read may. */
    const sizes: seq<nat>
    var pos: nat
    /** The count every Read call returned, in order. */
    var counts: seq<nat>

    constructor (data: seq<bv8>, sizes: seq<nat>)
      ensures this.data == data && this.sizes == sizes && pos == 0 && counts == []
    {
      this.data, this.sizes, pos, counts := data, sizes, 0, [];
    }

    predicate Valid()
      reads this
    {
      pos <= |data|
    }

    /** Read(buf, 0, count): copies the next bytes into the front of buf and returns
        how many; 0 means the end of the file was reached. */
    method Read(buf: array<bv8>, count: nat) returns (n: nat)
      requires Valid() && count <= buf.Length
      modifies this`pos, this`counts, buf
      ensures Valid()
      ensures n == 0 <==> count == 0 || old(pos) == |data|
      ensures n <= Min(count, |data| - old(pos))
      ensures pos == old(pos) + n
      ensures buf[..n] == data[old(pos)..pos]
      ensures counts == old(counts) + [n]
    {
      var most := Min(count, |data| - pos);
      var pick := if |counts| < |sizes| then sizes[|counts|] else most;
      var k := if 0 < pick <= most then pick else most;
      for i := 0 to k
        invariant pos == old(pos) && counts == old(counts)
        invariant buf[..i] == data[pos..pos + i]
      {
        buf[i] := data[pos + i];
        assert buf[..i + 1] == buf[..i] + [buf[i]];
      }
      pos := pos + k;
      counts := counts + [k];
      n := k;
    }
  }

  class WriteStream {
    var data: seq<bv8>
    /** The byte count of every Write call, in order. */
    var writes: seq<nat>

    constructor ()
      ensures data == [] && writes == []
    {
      data, writes := [], [];
    }

    /** Write(buf, 0, count). */
    method Write(buf: array<bv8>, count: nat)
      requires count <= buf.Length
      modifies this
      ensures data == old(data) + buf[..count]
      ensures writes == old(writes) + [count]
    {
      data := data + buf[..count];
      writes := writes + [count];
    }
  }

  function Sum(xs: seq<nat>): nat {
    if xs == [] then 0 else Sum(xs[..|xs| - 1]) + xs[|xs| - 1]
  }
}
