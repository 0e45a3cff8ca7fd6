/** The in-buffer fast paths of IO_CACHE in my_sys.h. A call that does not fit the buffer goes to a foreign
    function; here it reports that it did not take the fast path and changes nothing. */
module IoCache {
  import opened Bits
  import opened Codec

  datatype CacheType = ReadCache | WriteCache

  // What a call does to the bytes it works on: the bytes it hands out and the bytes left behind, or nothing
  // when it does not fit the buffer.
  datatype Step = Served(out: seq<byte>, left: seq<byte>) | Slow

  function ReadStep(unread: seq<byte>, n: nat): Step {
    if n <= |unread| then Served(unread[..n], unread[n..]) else Slow
  }

  function WriteStep(written: seq<byte>, capacity: nat, input: seq<byte>): Step {
    if |written| + |input| <= capacity then Served([], written + input) else Slow
  }

  class Cache {
    const cacheType: CacheType
    const buffer: array<byte>
    const writeBuffer: array<byte>
    // Positions are offsets into the buffer they point to; requestPos into the buffer of the cache's type.
    var posInFile: nat
    var requestPos: nat
    var readPos: nat
    var readEnd: nat
    var writePos: nat
    var writeEnd: nat

    ghost predicate Valid()
      reads this
    {
      && readPos <= readEnd <= buffer.Length
      && writePos <= writeEnd <= writeBuffer.Length
      && requestPos <= CurrentPos()
    }

    function CurrentPos(): nat
      reads this
    {
      if cacheType.WriteCache? then writePos else readPos
    }

    function CurrentEnd(): nat
      reads this
    {
      if cacheType.WriteCache? then writeEnd else readEnd
    }

    function Tell(): nat
      requires Valid()
      reads this
    {
      posInFile + (CurrentPos() - requestPos)
    }

    function BytesInCache(): nat
      requires Valid()
      reads this
    {
      CurrentEnd() - CurrentPos()
    }

    // The bytes still to be read, and the bytes written so far.
    ghost function Unread(): seq<byte>
      requires Valid()
      reads this, buffer
    {
      buffer[readPos..readEnd]
    }

    ghost function Written(): seq<byte>
      requires Valid()
      reads this, writeBuffer
    {
      writeBuffer[..writePos]
    }

    /** The bytes in cache are those still to be read, or the room left for writing. The position in the file is
        that of the requested byte plus the bytes passed since. */
    lemma PositionsExact()
      requires Valid()
      ensures cacheType.ReadCache? ==> BytesInCache() == |Unread()|
      ensures cacheType.ReadCache? ==> Tell() == posInFile + |buffer[requestPos..readPos]|
      ensures cacheType.WriteCache? ==> BytesInCache() == writeEnd - |Written()|
      ensures cacheType.WriteCache? ==> Tell() == posInFile + |Written()[requestPos..]|
    {
    }

    constructor (cacheType: CacheType, contents: seq<byte>, capacity: nat, posInFile: nat)
      ensures Valid() && fresh(buffer) && fresh(writeBuffer)
      ensures this.cacheType == cacheType && Unread() == contents && Written() == []
      ensures writeEnd == capacity && Tell() == posInFile
    {
      this.cacheType := cacheType;
      buffer := new byte[|contents|](i requires 0 <= i < |contents| => contents[i]);
      writeBuffer := new byte[capacity];
      this.posInFile, requestPos := posInFile, 0;
      readPos, readEnd := 0, |contents|;
      writePos, writeEnd := 0, capacity;
    }

    method Read(dst: array<byte>, count: nat) returns (fast: bool)
      requires Valid() && count <= dst.Length && dst != buffer && dst != writeBuffer
      modifies this`readPos, dst
      ensures Valid()
      ensures var step := ReadStep(old(Unread()), count);
              && fast == step.Served?
              && (fast ==> dst[..] == Put(old(dst[..]), 0, step.out) && Unread() == step.left)
      ensures !fast ==> dst[..] == old(dst[..]) && readPos == old(readPos)
      ensures cacheType.ReadCache? ==> Tell() + BytesInCache() == old(Tell() + BytesInCache())
    {
      ghost var unread := Unread();
      if readPos + count <= readEnd {
        forall i | 0 <= i < count {
          dst[i] := buffer[readPos + i];
        }
        assert buffer[readPos..readEnd] == unread;
        assert buffer[readPos + count..readEnd] == unread[count..];
        readPos := readPos + count;
        fast := true;
      } else {
        fast := false;
      }
    }

    method Get() returns (fast: bool, c: byte)
      requires Valid()
      modifies this`readPos
      ensures Valid()
      ensures var step := ReadStep(old(Unread()), 1);
              && fast == step.Served?
              && (fast ==> step.out == [c] && Unread() == step.left)
      ensures !fast ==> readPos == old(readPos)
      ensures cacheType.ReadCache? ==> Tell() + BytesInCache() == old(Tell() + BytesInCache())
    {
      fast, c := false, 0;
      if readPos != readEnd {
        readPos := readPos + 1;
        fast, c := true, buffer[readPos - 1];
      }
    }

    method Write(src: array<byte>, count: nat) returns (fast: bool)
      requires Valid() && count <= src.Length && src != writeBuffer
      modifies this`writePos, writeBuffer
      ensures Valid()
      ensures var step := WriteStep(old(Written()), writeEnd, old(src[..count]));
              && fast == step.Served?
              && (fast ==> Written() == step.left)
      ensures fast && cacheType.WriteCache? ==> Tell() == old(Tell()) + count
      ensures !fast ==> writeBuffer[..] == old(writeBuffer[..]) && writePos == old(writePos)
    {
      if writePos + count <= writeEnd {
        forall i | 0 <= i < count {
          writeBuffer[writePos + i] := src[i];
        }
        writePos := writePos + count;
        fast := true;
      } else {
        fast := false;
      }
    }

    // A list of reading calls, up to the first that does not fit the buffer.
    method RunReads(ops: seq<ReadOp>) returns (outputs: seq<seq<byte>>)
      requires Valid()
      modifies this`readPos
      ensures Valid()
      ensures (outputs, Unread()) == ReadRun(old(Unread()), ops)
      ensures cacheType.ReadCache? ==> Tell() + BytesInCache() == old(Tell() + BytesInCache())
    {
      outputs := [];
      ghost var whole := ReadRun(Unread(), ops);
      assert ops[0..] == ops;
      for i := 0 to |ops|
        invariant Valid()
        invariant whole.0 == outputs + ReadRun(Unread(), ops[i..]).0
        invariant whole.1 == ReadRun(Unread(), ops[i..]).1
        invariant cacheType.ReadCache? ==> Tell() + BytesInCache() == old(Tell() + BytesInCache())
      {
        ReadRunUnfolds(Unread(), ops, i);
        var fast, output := ServeRead(ops[i]);
        if !fast {
          assert ReadRun(Unread(), ops[i..]) == ([], Unread());
          assert whole.0 == outputs;
          return;
        }
        ghost var more := ReadRun(Unread(), ops[i + 1..]).0;
        assert outputs + ([output] + more) == outputs + [output] + more;
        outputs := outputs + [output];
      }
      assert whole.0 == outputs;
    }

    // One reading call; what it returns is its bytes.
    method ServeRead(op: ReadOp) returns (fast: bool, output: seq<byte>)
      requires Valid()
      modifies this`readPos
      ensures Valid()
      ensures var step := ReadStep(old(Unread()), op.Demand());
              if step.Served? then fast && output == step.out && Unread() == step.left
              else !fast && Unread() == old(Unread())
      ensures cacheType.ReadCache? ==> Tell() + BytesInCache() == old(Tell() + BytesInCache())
    {
      match op {
        case ReadBytes(count) =>
          var dst := new byte[count];
          fast := Read(dst, count);
          output := dst[..];
        case GetByte =>
          var c;
          fast, c := Get();
          output := [c];
      }
    }

    // A list of writing calls, up to the first that does not fit the buffer.
    method RunWrites(inputs: seq<seq<byte>>) returns (calls: nat)
      requires Valid()
      modifies this`writePos, writeBuffer
      ensures Valid()
      ensures (calls, Written()) == WriteRun(old(Written()), writeEnd, inputs)
      ensures calls <= |inputs|
      ensures cacheType.WriteCache? ==> Tell() == old(Tell()) + |Concat(inputs[..calls])|
    {
      calls := 0;
      WriteRunExact(Written(), writeEnd, inputs);
      while calls < |inputs|
        invariant Valid() && calls <= |inputs|
        invariant var (more, end) := WriteRun(Written(), writeEnd, inputs[calls..]);
                  WriteRun(old(Written()), writeEnd, inputs) == (calls + more, end)
        invariant cacheType.WriteCache? ==> Tell() == old(Tell()) + |Written()| - |old(Written())|
      {
        var input := inputs[calls];
        var src := new byte[|input|](i requires 0 <= i < |input| => input[i]);
        assert src[..|input|] == input;
        WriteRunUnfolds(Written(), writeEnd, inputs, calls);
        var fast := Write(src, |input|);
        if !fast {
          return;
        }
        calls := calls + 1;
      }
    }
  }

  // ---------- runs of calls ----------

  // A reading call and the bytes it asks for.
  datatype ReadOp = ReadBytes(count: nat) | GetByte {
    function Demand(): nat { if ReadBytes? then count else 1 }
  }

  // What the reading methods deliver from the unread bytes, call by call, and what is left unread. A call
  // that does not fit ends the run.
  function ReadRun(unread: seq<byte>, ops: seq<ReadOp>): (r: (seq<seq<byte>>, seq<byte>)) {
    if ops == [] then ([], unread)
    else
      match ReadStep(unread, ops[0].Demand())
      case Slow => ([], unread)
      case Served(out, left) =>
        var (outputs, rest) := ReadRun(left, ops[1..]);
        ([out] + outputs, rest)
  }

  // What the writing method leaves in a buffer of some capacity; a call that does not fit ends the run.
  function WriteRun(written: seq<byte>, capacity: nat, inputs: seq<seq<byte>>): (r: (nat, seq<byte>))
    decreases |inputs|
  {
    if inputs == [] then (0, written)
    else
      match WriteStep(written, capacity, inputs[0])
      case Slow => (0, written)
      case Served(_, left) =>
        var (calls, end) := WriteRun(left, capacity, inputs[1..]);
        (calls + 1, end)
  }

  lemma ReadRunUnfolds(unread: seq<byte>, ops: seq<ReadOp>, i: nat)
    requires i < |ops|
    ensures ReadRun(unread, ops[i..]) ==
            match ReadStep(unread, ops[i].Demand())
            case Slow => ([], unread)
            case Served(out, left) => var (outputs, rest) := ReadRun(left, ops[i + 1..]); ([out] + outputs, rest)
  {
    assert ops[i..][1..] == ops[i + 1..];
  }

  lemma WriteRunUnfolds(written: seq<byte>, capacity: nat, inputs: seq<seq<byte>>, i: nat)
    requires i < |inputs|
    ensures WriteRun(written, capacity, inputs[i..]) ==
            match WriteStep(written, capacity, inputs[i])
            case Slow => (0, written)
            case Served(_, left) => var (calls, end) := WriteRun(left, capacity, inputs[i + 1..]); (calls + 1, end)
  {
    assert inputs[i..][1..] == inputs[i + 1..];
  }

  function Concat(parts: seq<seq<byte>>): seq<byte> {
    if parts == [] then [] else parts[0] + Concat(parts[1..])
  }

  function TotalDemand(ops: seq<ReadOp>): nat {
    if ops == [] then 0 else ops[0].Demand() + TotalDemand(ops[1..])
  }

  lemma {:induction false} ReadRunConcat(unread: seq<byte>, ops: seq<ReadOp>)
    ensures Concat(ReadRun(unread, ops).0) + ReadRun(unread, ops).1 == unread
    decreases |ops|
  {
    if ops != [] && ops[0].Demand() <= |unread| {
      var n := ops[0].Demand();
      ReadRunConcat(unread[n..], ops[1..]);
      var (outputs, rest) := ReadRun(unread[n..], ops[1..]);
      ConcatCons(unread[..n], outputs);
      Reassociate(unread[..n], Concat(outputs), rest, unread[n..]);
      assert ReadRun(unread, ops) == ([unread[..n]] + outputs, rest);
      assert unread[..n] + unread[n..] == unread;
    }
  }

  lemma Reassociate(a: seq<byte>, b: seq<byte>, c: seq<byte>, bc: seq<byte>)
    requires b + c == bc
    ensures a + b + c == a + bc
  {
  }

  lemma ConcatCons(head: seq<byte>, tail: seq<seq<byte>>)
    ensures Concat([head] + tail) == head + Concat(tail)
  {
    assert ([head] + tail)[1..] == tail;
  }

  lemma {:induction false} ReadRunServes(unread: seq<byte>, ops: seq<ReadOp>)
    ensures var outputs := ReadRun(unread, ops).0;
            && |outputs| <= |ops|
            && (forall i :: 0 <= i < |outputs| ==> |outputs[i]| == ops[i].Demand())
            && (|outputs| == |ops| <==> TotalDemand(ops) <= |unread|)
    decreases |ops|
  {
    if ops != [] && ops[0].Demand() <= |unread| {
      var n := ops[0].Demand();
      ReadRunServes(unread[n..], ops[1..]);
    }
  }

  /** However the reading calls divide the buffer, what they return is the buffered bytes in order, and a run
      that fits in the buffer serves every call with what it asked for. */
  lemma {:induction false} ReadRunExact(unread: seq<byte>, ops: seq<ReadOp>)
    ensures var (outputs, rest) := ReadRun(unread, ops);
            && Concat(outputs) + rest == unread
            && |outputs| <= |ops|
            && (forall i :: 0 <= i < |outputs| ==> |outputs[i]| == ops[i].Demand())
            && (|outputs| == |ops| <==> TotalDemand(ops) <= |unread|)
  {
    ReadRunConcat(unread, ops);
    ReadRunServes(unread, ops);
  }

  lemma {:induction false} WriteRunExact(written: seq<byte>, capacity: nat, inputs: seq<seq<byte>>)
    requires |written| <= capacity
    ensures var (calls, end) := WriteRun(written, capacity, inputs);
            && calls <= |inputs|
            && end == written + Concat(inputs[..calls])
            && |end| <= capacity
            && (calls == |inputs| <==> |written| + |Concat(inputs)| <= capacity)
    decreases |inputs|
  {
    if inputs == [] {
      assert inputs[..0] == [];
    } else if |written| + |inputs[0]| > capacity {
      assert inputs[..0] == [];
    } else {
      WriteRunExact(written + inputs[0], capacity, inputs[1..]);
      var (calls, end) := WriteRun(written + inputs[0], capacity, inputs[1..]);
      assert inputs[..calls + 1][1..] == inputs[1..][..calls];
      assert inputs[..calls + 1][0] == inputs[0];
      assert end == written + (inputs[0] + Concat(inputs[1..][..calls]));
    }
  }

  /** The division does not matter: reads that fit in the buffer and ask for as much in all deliver the same
      bytes and leave the same unread; writes of the same bytes that fit leave the same buffer. */
  lemma {:induction false} ReadDivisionDoesNotMatter(unread: seq<byte>, a: seq<ReadOp>, b: seq<ReadOp>)
    requires TotalDemand(a) == TotalDemand(b) <= |unread|
    ensures Concat(ReadRun(unread, a).0) == Concat(ReadRun(unread, b).0) == unread[..TotalDemand(a)]
    ensures ReadRun(unread, a).1 == ReadRun(unread, b).1 == unread[TotalDemand(a)..]
  {
    FittingRunDelivers(unread, a);
    FittingRunDelivers(unread, b);
  }

  lemma {:induction false} FittingRunDelivers(unread: seq<byte>, ops: seq<ReadOp>)
    requires TotalDemand(ops) <= |unread|
    ensures Concat(ReadRun(unread, ops).0) == unread[..TotalDemand(ops)]
    ensures ReadRun(unread, ops).1 == unread[TotalDemand(ops)..]
    decreases |ops|
  {
    if ops != [] {
      var n, m := ops[0].Demand(), TotalDemand(ops[1..]);
      FittingRunDelivers(unread[n..], ops[1..]);
      ConcatCons(unread[..n], ReadRun(unread[n..], ops[1..]).0);
      assert unread[..n + m] == unread[..n] + unread[n..][..m];
      assert unread[n + m..] == unread[n..][m..];
    }
  }

  lemma WriteDivisionDoesNotMatter(written: seq<byte>, capacity: nat, a: seq<seq<byte>>, b: seq<seq<byte>>)
    requires Concat(a) == Concat(b) && |written| + |Concat(a)| <= capacity
    ensures WriteRun(written, capacity, a).1 == WriteRun(written, capacity, b).1 == written + Concat(a)
  {
    WriteRunExact(written, capacity, a);
    WriteRunExact(written, capacity, b);
    assert a[..|a|] == a && b[..|b|] == b;
  }
}
