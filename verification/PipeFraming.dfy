/** Strings sent from a child process through a pipe: eight bytes of size, then the characters. */
module PipeFraming {
  import opened Bytes

  const SIZE_BYTES := 8

  /** n in count little-endian bytes. */
  function Encode(n: nat, count: nat): (b: seq<u8>)
    ensures |b| == count
  {
    if count == 0 then [] else [n % 0x100] + Encode(n / 0x100, count - 1)
  }

  function Decode(b: seq<u8>): nat {
    if b == [] then 0 else b[0] + 0x100 * Decode(b[1..])
  }

  function Capacity(count: nat): (c: nat)
    ensures c > 0
  {
    if count == 0 then 1 else 0x100 * Capacity(count - 1)
  }

  lemma {:induction false} DecodeEncode(n: nat, count: nat)
    requires n < Capacity(count)
    ensures Decode(Encode(n, count)) == n
    decreases count
  {
    if count > 0 {
      DecodeEncode(n / 0x100, count - 1);
      assert Encode(n, count)[1..] == Encode(n / 0x100, count - 1);
    }
  }

  /** What the child writes for one string. */
  function Frame(s: seq<u8>): seq<u8> {
    Encode(|s|, SIZE_BYTES) + s
  }

  function Frames(strings: seq<seq<u8>>): seq<u8> {
    if strings == [] then [] else Frame(strings[0]) + Frames(strings[1..])
  }

  /** One read call on a pipe whose writer is gone: what is there, up to the size asked for. */
  function Available(stream: seq<u8>, size: nat): nat {
    if |stream| < size then |stream| else size
  }

  /** The string that one call reads, and what it leaves in the pipe. */
  function Read(stream: seq<u8>): (seq<u8>, seq<u8>) {
    var n := Available(stream, SIZE_BYTES);
    var size := Decode(stream[..n]);
    if n == 0 then ([], stream)
    else if size == 0 then ([], stream[n..])
    else
      var m := Available(stream[n..], size);
      if m == 0 then ([], stream[n..])
      else (stream[n..][..m] + Blanks(size - m), stream[n..][m..])
  }

  /** The string is created with blanks before the data is read into it. */
  function Blanks(n: nat): seq<u8> {
    seq(n, _ => 32)
  }

  /** The results of n reads. */
  function ReadMany(stream: seq<u8>, n: nat): seq<seq<u8>> {
    if n == 0 then [] else [Read(stream).0] + ReadMany(Read(stream).1, n - 1)
  }

  lemma ReadFrame(s: seq<u8>, rest: seq<u8>)
    requires |s| < Capacity(SIZE_BYTES)
    ensures Read(Frame(s) + rest) == (s, rest)
  {
    var stream, header := Frame(s) + rest, Encode(|s|, SIZE_BYTES);
    assert stream == header + (s + rest);
    assert stream[..SIZE_BYTES] == header && stream[SIZE_BYTES..] == s + rest;
    DecodeEncode(|s|, SIZE_BYTES);
    assert (s + rest)[..|s|] == s && (s + rest)[|s|..] == rest;
    hide Encode, Decode;
    assert s == [] ==> s + rest == rest;
    assert s + Blanks(0) == s;
  }

  lemma {:induction false} FramesAppend(strings: seq<seq<u8>>, s: seq<u8>)
    ensures Frames(strings + [s]) == Frames(strings) + Frame(s)
    decreases |strings|
  {
    hide Frame;
    if strings == [] {
      assert (strings + [s])[1..] == [];
    } else {
      FramesAppend(strings[1..], s);
      assert (strings + [s])[1..] == strings[1..] + [s];
    }
  }

  class Pipe {
    var stream: seq<u8>

    constructor ()
      ensures stream == []
    {
      stream := [];
    }

    /** Behind what was in the pipe, one read finds the string; a queue of strings gets one more at its end. */
    method WriteString(s: seq<u8>)
      modifies this
      ensures |old(stream)| <= |stream| && stream[..|old(stream)|] == old(stream)
      ensures |s| < Capacity(SIZE_BYTES) ==> Read(stream[|old(stream)|..]) == (s, [])
      ensures forall strings :: old(stream) == Frames(strings) ==> stream == Frames(strings + [s])
    {
      ghost var before := stream;
      stream := stream + Encode(|s|, SIZE_BYTES);
      stream := stream + s;
      assert stream == before + Frame(s);
      hide *;
      if |s| < Capacity(SIZE_BYTES) {
        ReadFrame(s, []);
        assert stream[|before|..] == Frame(s) + [];
      }
      forall strings | before == Frames(strings)
        ensures stream == Frames(strings + [s])
      {
        FramesAppend(strings, s);
      }
    }

    /** Fills up to size bytes. */
    method ReadBytes(size: nat) returns (data: seq<u8>)
      modifies this
      ensures data == old(stream)[..Available(old(stream), size)]
      ensures stream == old(stream)[Available(old(stream), size)..]
    {
      var n := Available(stream, size);
      data := stream[..n];
      stream := stream[n..];
    }

    method ReadString() returns (s: seq<u8>)
      modifies this
      ensures (s, stream) == Read(old(stream))
    {
      var header := ReadBytes(SIZE_BYTES);
      if header == [] {
        return [];
      }
      var size := Decode(header);
      if size == 0 {
        return [];
      }
      var data := ReadBytes(size);
      if data == [] {
        return [];
      }
      return data + Blanks(size - |data|);
    }
  }

  /** Any strings, empty ones included, arrive as they were written, in order. */
  lemma {:induction false} FramesRoundTrip(strings: seq<seq<u8>>)
    requires forall k :: 0 <= k < |strings| ==> |strings[k]| < Capacity(SIZE_BYTES)
    ensures ReadMany(Frames(strings), |strings|) == strings
    decreases |strings|
  {
    hide Read, Frame;
    if strings != [] {
      ReadFrame(strings[0], Frames(strings[1..]));
      FramesRoundTrip(strings[1..]);
    }
  }

  /**
   When the child ends in the middle of a string, the string has its full length all the same:
   what has come, and blanks for the rest; without any of its characters it is empty.
   */
  lemma CutStringPadded(s: seq<u8>, m: nat)
    requires m <= |s| < Capacity(SIZE_BYTES)
    ensures var read := Read(Frame(s)[..SIZE_BYTES + m]);
      && read.1 == []
      && read.0 == if m == 0 then [] else s[..m] + seq(|s| - m, _ => ' ' as u8)
  {
    var stream, header := Frame(s)[..SIZE_BYTES + m], Encode(|s|, SIZE_BYTES);
    assert stream[..SIZE_BYTES] == header && stream[SIZE_BYTES..] == s[..m];
    DecodeEncode(|s|, SIZE_BYTES);
    hide Encode, Decode;
    assert s[..m][..m] == s[..m] && s[..m][m..] == [];
  }

  /** Reading from a child that has written nothing yields empty strings only. */
  lemma {:induction false} NothingWritten(n: nat)
    ensures ReadMany([], n) == seq(n, _ => [])
  {
    if n > 0 {
      NothingWritten(n - 1);
      assert Read([]) == ([], []);
    }
  }
}
