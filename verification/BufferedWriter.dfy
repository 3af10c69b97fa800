// The output buffer between the printer and the stream: whatever the sizes of the pieces that are
// written, the stream gets one conversion of the whole text.
module BufferedWriter {
  import opened XmlText
  import opened Transcoding

  const CAPACITY: nat := 2048

  /** The place before the last byte that starts a character, if there is one among the last four; the
      beginning for a short piece. */
  predicate CutPlace(data: string, length: nat, n: nat)
    requires length <= |data|
  {
    if length < 5 then n == 0
    else if n == length then forall k | length - 4 <= k < length :: Continues(data[k])
    else length - 4 <= n < length && !Continues(data[n])
  }

  /** How much of the first `length` bytes to take so that no character is split. */
  method GetValidLength(data: string, length: nat) returns (n: nat)
    requires length <= |data|
    ensures n <= length && CutPlace(data, length, n)
  {
    if length < 5 { return 0; }
    var i := 1;
    while i <= 4
      invariant 1 <= i <= 5 && forall k | length - i < k < length :: Continues(data[k])
    {
      if !Continues(data[length - i]) { return length - i; }
      i := i + 1;
    }
    return length;
  }

  /** Of a whole text, a whole piece is taken. */
  lemma ChunkIsWhole(data: string, length: nat, n: nat)
    requires Bytes(data) && Whole(data) && length <= |data| && n <= length && CutPlace(data, length, n)
    ensures Whole(data[..n]) && Whole(data[n..]) && (length >= 5 ==> length - 4 <= n < length)
  {
    hide Whole;
    if length < 5 {
      EmptyIsWhole();
      assert data[..0] == "" && data[0..] == data;
    } else {
      NoFourContinue(data, length - 4);
      assert n < length;
      CutsWhole(data, n);
    }
  }

  lemma EmptyIsWhole()
    ensures Whole("")
  {}

  /** Writes that are complete: any bytes for a stream in UTF-8, complete characters for the others. */
  predicate Writable(e: Encoding, s: string) { Bytes(s) && (e.Native? || Whole(s)) }

  lemma WritableJoins(e: Encoding, a: string, b: string)
    requires Writable(e, a) && Writable(e, b)
    ensures Writable(e, a + b) && Output(e, a + b) == Output(e, a) + Output(e, b)
  {
    OutputJoins(e, a, b);
    if !e.Native? { WholeJoins(a, b); }
  }

  lemma EmptyOutput(e: Encoding)
    ensures Writable(e, "") && Output(e, "") == []
  {}

  class Writer {
    const encoding: Encoding
    const buffer: array<char>
    var bufsize: nat
    var stream: seq<int>             // what the stream has been given

    ghost predicate Valid()
      reads this, buffer
    {
      buffer.Length == CAPACITY && bufsize <= CAPACITY && Writable(encoding, buffer[..bufsize])
    }

    /** The stream once the buffer is flushed. */
    ghost function Emitted(): seq<int>
      requires Valid()
      reads this, buffer
    {
      stream + Output(encoding, buffer[..bufsize])
    }

    constructor (encoding: Encoding)
      ensures Valid() && this.encoding == encoding && stream == [] && bufsize == 0 && fresh(buffer)
    {
      this.encoding := encoding;
      buffer := new char[CAPACITY];
      bufsize, stream := 0, [];
    }

    /** Gives a piece to the stream, converted in the scratch space unless it is in UTF-8 anyway. */
    method FlushData(data: string)
      requires Bytes(data) && (encoding.Native? || |data| <= CAPACITY)
      modifies `stream
      ensures stream == old(stream) + Output(encoding, data)
    {
      if |data| == 0 { return; }
      if encoding.Native? {
        stream := stream + Output(encoding, data);
      } else {
        var result := Convert(encoding, data);
        ConvertFits(encoding, data);
        assert |result| <= CAPACITY;
        stream := stream + result;
      }
    }

    method Flush()
      requires Valid()
      modifies `stream, `bufsize
      ensures Valid() && bufsize == 0 && stream == old(Emitted())
    {
      FlushData(buffer[..bufsize]);
      bufsize := 0;
    }

    /** Puts a piece for which there is room behind what the buffer holds. */
    method Append(data: string)
      requires Valid() && Writable(encoding, data) && bufsize + |data| <= CAPACITY
      modifies `bufsize, buffer
      ensures Valid() && bufsize == old(bufsize) + |data| && stream == old(stream)
      ensures Emitted() == old(Emitted()) + Output(encoding, data)
    {
      ghost var was := buffer[..bufsize];
      forall i | 0 <= i < |data| { buffer[bufsize + i] := data[i]; }
      bufsize := bufsize + |data|;
      assert buffer[..bufsize] == was + data;
      WritableJoins(encoding, was, data);
    }

    /** Chunks of a long piece go straight to the stream, until what is left fits in the buffer. */
    method WriteChunks(data: string) returns (rest: string)
      requires !encoding.Native? && Writable(encoding, data)
      modifies `stream
      ensures Writable(encoding, rest) && |rest| <= CAPACITY
      ensures stream + Output(encoding, rest) == old(stream) + Output(encoding, data)
    {
      hide Whole, Output, Bytes;
      rest := data;
      while |rest| > CAPACITY
        invariant Writable(encoding, rest)
        invariant stream + Output(encoding, rest) == old(stream) + Output(encoding, data)
        decreases |rest|
      {
        var chunk := GetValidLength(rest, CAPACITY);
        Backtrack(rest, CAPACITY, chunk);
        ghost var was, all := stream, rest;
        FlushData(rest[..chunk]);
        rest := rest[chunk..];
        assert was + (Output(encoding, all[..chunk]) + Output(encoding, rest)) == stream + Output(encoding, rest);
      }
    }

    method WriteDirect(data: string)
      requires Valid() && Writable(encoding, data)
      modifies this, buffer
      ensures Valid() && Emitted() == old(Emitted()) + Output(encoding, data)
    {
      hide Whole, Output, Bytes;
      Flush();
      var rest := data;
      if |rest| > CAPACITY {
        if encoding.Native? {
          ghost var was := stream;
          stream := stream + Output(encoding, rest);
          EmptyOutput(encoding);
          assert Emitted() == was + Output(encoding, rest) by { assert buffer[..0] == ""; }
          return;
        }
        rest := WriteChunks(rest);
        bufsize := 0;
      }
      EmptyOutput(encoding);
      assert buffer[..0] == "";
      Append(rest);
    }

    lemma Backtrack(data: string, length: nat, n: nat)
      requires Writable(encoding, data) && length <= |data| && n <= length && CutPlace(data, length, n)
      ensures Writable(encoding, data[..n]) && Writable(encoding, data[n..])
      ensures Output(encoding, data) == Output(encoding, data[..n]) + Output(encoding, data[n..])
      ensures !encoding.Native? && length >= 5 ==> 0 < n < length
    {
      if !encoding.Native? { ChunkIsWhole(data, length, n); }
      assert data == data[..n] + data[n..];
      OutputJoins(encoding, data[..n], data[n..]);
    }

    method WriteBuffer(data: string)
      requires Valid() && Writable(encoding, data)
      modifies this, buffer
      ensures Valid() && Emitted() == old(Emitted()) + Output(encoding, data)
    {
      if bufsize + |data| <= CAPACITY {
        Append(data);
      } else {
        WriteDirect(data);
      }
    }

    /** The form for up to six single characters. */
    method Write(data: string)
      requires Valid() && Writable(encoding, data) && |data| <= 6
      modifies this, buffer
      ensures Valid() && Emitted() == old(Emitted()) + Output(encoding, data)
    {
      if bufsize > CAPACITY - |data| { Flush(); }
      Append(data);
    }

    /** The form for a text up to its NUL, which is copied while its end is looked for. */
    method WriteString(data: string)
      requires Valid() && Writable(encoding, data)
      modifies this, buffer
      ensures Valid() && Emitted() == old(Emitted()) + Output(encoding, data)
    {
      hide Whole, Output, Bytes, CutPlace;
      ghost var was, first := buffer[..bufsize], stream;
      var offset, length := bufsize, 0;
      while length < |data| && offset < CAPACITY
        invariant stream == first && bufsize == |was|
        invariant length <= |data| && offset == bufsize + length <= CAPACITY
        invariant buffer[..offset] == was + data[..length]
      {
        buffer[offset] := data[length];
        offset, length := offset + 1, length + 1;
      }
      if offset < CAPACITY {
        bufsize := offset;
        assert buffer[..bufsize] == was + data;
        WritableJoins(encoding, was, data);
        assert Emitted() == (first + Output(encoding, was)) + Output(encoding, data);
      } else {
        var extra := GetValidLength(data, length);
        Backtrack(data, length, extra);
        bufsize := offset - (length - extra);
        assert buffer[..bufsize] == was + data[..extra];
        WritableJoins(encoding, was, data[..extra]);
        assert Emitted() == (first + Output(encoding, was)) + Output(encoding, data[..extra]);
        WriteDirect(data[extra..]);
      }
    }
  }

  /** The calls of the printer: a text, a stretch of known length, or a few characters. */
  datatype Call = Text(s: string) | Stretch(s: string) | Few(s: string)

  function Concat(calls: seq<Call>): string {
    if calls == [] then "" else Concat(calls[..|calls| - 1]) + calls[|calls| - 1].s
  }

  predicate CallOk(e: Encoding, c: Call) { Writable(e, c.s) && (c.Few? ==> |c.s| <= 6) }

  lemma {:induction false} ConcatWritable(e: Encoding, calls: seq<Call>)
    requires forall k | 0 <= k < |calls| :: CallOk(e, calls[k])
    ensures Writable(e, Concat(calls))
  {
    hide Output, Writable;
    if calls == [] {
      EmptyOutput(e);
    } else {
      ConcatWritable(e, calls[..|calls| - 1]);
      WritableJoins(e, Concat(calls[..|calls| - 1]), calls[|calls| - 1].s);
    }
  }

  lemma ConcatNext(e: Encoding, calls: seq<Call>, k: nat)
    requires k < |calls| && forall i | 0 <= i < |calls| :: CallOk(e, calls[i])
    ensures Writable(e, Concat(calls[..k])) && Writable(e, Concat(calls[..k + 1])) && Writable(e, calls[k].s)
    ensures Output(e, Concat(calls[..k + 1])) == Output(e, Concat(calls[..k])) + Output(e, calls[k].s)
  {
    hide Output;
    ConcatWritable(e, calls[..k]);
    assert calls[..k + 1][..k] == calls[..k];
    WritableJoins(e, Concat(calls[..k]), calls[k].s);
  }

  /** The whole life of a writer: the stream gets the conversion of everything that was written, wherever
      the buffer was flushed and pieces were cut. */
  method WriteAll(e: Encoding, calls: seq<Call>) returns (stream: seq<int>)
    requires forall k | 0 <= k < |calls| :: CallOk(e, calls[k])
    ensures Bytes(Concat(calls)) && stream == Output(e, Concat(calls))
  {
    hide Output, Whole, Bytes, Concat;
    ConcatWritable(e, calls);
    var w := new Writer(e);
    var k := 0;
    EmptyOutput(e);
    assert calls[..0] == [] && w.buffer[..0] == "" && Concat([]) == "" by { NoCalls(); }
    while k < |calls|
      invariant k <= |calls| && w.Valid() && fresh(w) && fresh(w.buffer) && w.encoding == e
      invariant Writable(e, Concat(calls[..k])) && w.Emitted() == Output(e, Concat(calls[..k]))
    {
      ConcatNext(e, calls, k);
      match calls[k] {
        case Text(s) => w.WriteString(s);
        case Stretch(s) => w.WriteBuffer(s);
        case Few(s) => w.Write(s);
      }
      k := k + 1;
    }
    assert calls[..k] == calls;
    w.Flush();
    stream := w.stream;
  }

  lemma NoCalls()
    ensures Concat([]) == ""
  {}
}
