/** The server's line reader: cuts a byte stream, arriving in arbitrary chunks, into NUL-terminated lines. */
module LineReader {
  import opened BitStreams

  const MAX_MSG := 100
  const END_LINE: Byte := 0
  const ERROR := 1

  // ----- The lines of a byte stream -----

  /** The length of the first line: the position of the first NUL, or of the end. */
  function LineLength(s: seq<Byte>): (k: nat)
    ensures k <= |s| && END_LINE !in s[..k]
    ensures k < |s| ==> s[k] == END_LINE
    ensures k == |s| ==> END_LINE !in s
  {
    if s == [] || s[0] == END_LINE then 0 else
      var k := 1 + LineLength(s[1..]);
      assert s[..k] == [s[0]] + s[1..][..k - 1] && s == [s[0]] + s[1..];
      k
  }

  /** All terminated lines; an unterminated rest is not one. */
  function Lines(s: seq<Byte>): seq<seq<Byte>> {
    var k := LineLength(s);
    if k == |s| then [] else [s[..k]] + Lines(s[k + 1..])
  }

  lemma {:induction false} LineLengthOf(line: seq<Byte>, rest: seq<Byte>)
    requires END_LINE !in line
    ensures LineLength(line + [END_LINE] + rest) == |line|
  {
    var s := line + [END_LINE] + rest;
    if line != [] {
      assert s[1..] == line[1..] + [END_LINE] + rest;
      LineLengthOf(line[1..], rest);
    }
  }

  lemma LinesOf(line: seq<Byte>, rest: seq<Byte>)
    requires END_LINE !in line
    ensures Lines(line + [END_LINE] + rest) == [line] + Lines(rest)
  {
    var s := line + [END_LINE] + rest;
    LineLengthOf(line, rest);
    assert s[..|line|] == line && s[|line| + 1..] == rest;
  }

  function Concat(chunks: seq<seq<Byte>>): seq<Byte> {
    if chunks == [] then [] else chunks[0] + Concat(chunks[1..])
  }

  // ----- Where a position in the stream lies -----

  /** A position in a stream: what is left in the buffer, and the chunks not yet received. */
  datatype Position = Position(buffer: seq<Byte>, chunks: seq<seq<Byte>>)

  /** Every byte still to come. */
  function Bytes(p: Position): seq<Byte> {
    p.buffer + Concat(p.chunks)
  }

  /** The position after used more bytes: a chunk is received only when the buffer is used up and another byte is
      wanted. */
  function After(p: Position, used: nat): (q: Position)
    requires used <= |Bytes(p)|
    ensures |Bytes(q)| + used == |Bytes(p)|
    decreases |p.chunks|
  {
    if used <= |p.buffer| then Position(p.buffer[used..], p.chunks)
    else After(Position(p.chunks[0], p.chunks[1..]), used - |p.buffer|)
  }

  lemma {:induction false} AfterMore(p: Position, m: nat, n: nat)
    requires m + n <= |Bytes(p)|
    ensures After(After(p, m), n) == After(p, m + n)
    decreases |p.chunks|
  {
    if m > |p.buffer| {
      AfterMore(Position(p.chunks[0], p.chunks[1..]), m - |p.buffer|, n);
    } else if m + n <= |p.buffer| {
      assert p.buffer[m..][n..] == p.buffer[m + n..];
    }
  }

  /** Reading some bytes leads from p to q. */
  ghost predicate LeadsTo(p: Position, q: Position) {
    |Bytes(q)| <= |Bytes(p)| && After(p, |Bytes(p)| - |Bytes(q)|) == q
  }

  lemma LeadsToItself(p: Position)
    ensures LeadsTo(p, p)
  {}

  lemma LeadsFurther(p: Position, q: Position, r: Position)
    requires LeadsTo(p, q) && LeadsTo(q, r)
    ensures LeadsTo(p, r)
  {
    AfterMore(p, |Bytes(p)| - |Bytes(q)|, |Bytes(q)| - |Bytes(r)|);
  }

  /** The position when the next byte is looked at. */
  function Loaded(p: Position): Position {
    if p.buffer == [] && p.chunks != [] then Position(p.chunks[0], p.chunks[1..]) else p
  }

  lemma LoadedLeads(p: Position, read: seq<Byte>, rest: seq<Byte>)
    requires read != [] && Loaded(p).buffer == read + rest
    ensures LeadsTo(p, Position(rest, Loaded(p).chunks))
  {
    var q := Position(rest, Loaded(p).chunks);
    assert |Bytes(p)| == |Bytes(Loaded(p))| == |read| + |Bytes(q)|;
    assert (read + rest)[|read|..] == rest;
  }

  // ----- The reader -----

  /** The function's static variables, and the chunks that recv will still deliver before the peer closes. */
  class Reader {
    var rcvPtr: nat
    const rcvMsg: array<Byte>
    var n: nat
    var incoming: seq<seq<Byte>>

    ghost predicate Valid()
      reads this
    {
      && rcvMsg.Length == MAX_MSG
      && n <= MAX_MSG && (rcvPtr == 0 || rcvPtr < n)
      && AreChunks(incoming)
    }

    /** What is left in the buffer. */
    ghost function Buffered(): seq<Byte>
      requires Valid()
      reads this, rcvMsg
    {
      if rcvPtr == 0 then [] else rcvMsg[rcvPtr..n]
    }

    ghost function At(): Position
      requires Valid()
      reads this, rcvMsg
    {
      Position(Buffered(), incoming)
    }

    /** Every byte still to come. */
    ghost function Stream(): seq<Byte>
      requires Valid()
      reads this, rcvMsg
    {
      Bytes(At())
    }

    constructor (chunks: seq<seq<Byte>>)
      requires AreChunks(chunks)
      ensures Valid() && fresh(rcvMsg) && rcvMsg.Length == 100
      ensures Buffered() == [] && incoming == chunks && Stream() == Concat(chunks)
    {
      rcvPtr, n, incoming := 0, 0, chunks;
      rcvMsg := new Byte[MAX_MSG](_ => 0);
    }

    /** Clears the buffer and copies a chunk to its front. */
    method Fill(chunk: seq<Byte>)
      requires |chunk| <= rcvMsg.Length
      modifies rcvMsg
      ensures rcvMsg[..|chunk|] == chunk
    {
      for i := 0 to rcvMsg.Length
        invariant forall j :: 0 <= j < i ==> rcvMsg[j] == if j < |chunk| then chunk[j] else 0
      {
        rcvMsg[i] := if i < |chunk| then chunk[i] else 0;
      }
    }

    /** Makes sure that there is a byte to look at: receives a chunk if the buffer is used up. */
    method Receive() returns (open: bool)
      requires Valid()
      modifies this, rcvMsg
      ensures Valid() && open == (old(Stream()) != [])
      ensures !open ==> Stream() == []
      ensures open ==> rcvPtr < n && old(Stream()) == rcvMsg[rcvPtr..n] + Concat(incoming)
      ensures open ==> Position(rcvMsg[rcvPtr..n], incoming) == Loaded(old(At()))
      ensures !open ==> At() == old(At())
      ensures |incoming| < |old(incoming)| || (incoming == old(incoming) && rcvPtr == old(rcvPtr))
      ensures |incoming| == |old(incoming)| && open ==> rcvPtr > 0
    {
      if rcvPtr == 0 {
        if incoming == [] {
          n := 0;
          return false;
        }
        n := |incoming[0]|;
        Fill(incoming[0]);
        incoming := incoming[1..];
      }
      return true;
    }

    /** Copies buffered bytes up to a NUL or the end of the buffer. */
    method CopyLine(line0: seq<Byte>) returns (line: seq<Byte>)
      requires n <= rcvMsg.Length && rcvPtr < n
      modifies this`rcvPtr
      ensures old(rcvPtr) <= rcvPtr <= n
      ensures line == line0 + rcvMsg[old(rcvPtr)..rcvPtr] && END_LINE !in rcvMsg[old(rcvPtr)..rcvPtr]
      ensures rcvPtr < n ==> rcvMsg[rcvPtr] == END_LINE
    {
      line := line0;
      while rcvPtr < n && rcvMsg[rcvPtr] != END_LINE
        invariant old(rcvPtr) <= rcvPtr <= n
        invariant line == line0 + rcvMsg[old(rcvPtr)..rcvPtr] && END_LINE !in rcvMsg[old(rcvPtr)..rcvPtr]
      {
        assert rcvMsg[old(rcvPtr)..rcvPtr + 1] == rcvMsg[old(rcvPtr)..rcvPtr] + [rcvMsg[rcvPtr]];
        line := line + [rcvMsg[rcvPtr]];
        rcvPtr := rcvPtr + 1;
      }
    }

    /** Steps over the NUL that ended a line; a used-up buffer is marked by rcvPtr 0. */
    method PassEnd()
      requires Valid() && rcvPtr < n && rcvMsg[rcvPtr] == END_LINE
      modifies this`rcvPtr
      ensures Valid() && rcvMsg[old(rcvPtr)..n] == [END_LINE] + Buffered()
    {
      if rcvPtr == n - 1 {
        rcvPtr := 0;
      } else {
        rcvPtr := rcvPtr + 1;
      }
    }

    /** One turn of the loop: gets bytes if there are none, copies up to a NUL and steps over it. */
    method ReadPart(line0: seq<Byte>) returns (line: seq<Byte>, open: bool, atEnd: bool)
      requires Valid() && END_LINE !in line0
      modifies this, rcvMsg
      ensures Valid() && END_LINE !in line
      ensures Joined(line0, false, old(Stream())) == Joined(line, atEnd, Stream())
      ensures !open ==> Stream() == [] && !atEnd
      ensures LeadsTo(old(At()), At())
      ensures open && !atEnd ==> |incoming| < |old(incoming)| || (|incoming| == |old(incoming)| && rcvPtr < old(rcvPtr))
    {
      line, atEnd := line0, false;
      open := Receive();
      if open {
        ghost var start := rcvPtr;
        line := CopyLine(line0);
        ghost var copied, left := rcvMsg[start..rcvPtr], rcvMsg[rcvPtr..n];
        assert rcvMsg[start..n] == copied + left;
        Rearrange(line0, rcvMsg[start..n], copied, left, Concat(incoming));
        if rcvPtr < n {
          PassEnd();
          atEnd := true;
          Regroup(copied, [END_LINE], Buffered());
          LoadedLeads(old(At()), copied + [END_LINE], Buffered());
        } else {
          rcvPtr := 0;
          LoadedLeads(old(At()), copied, []);
        }
      } else {
        LeadsToItself(At());
      }
    }

    /** One call of read_line. An empty line and the end of the stream both return 1, which is ERROR. */
    method ReadLine() returns (code: nat, line: seq<Byte>)
      requires Valid()
      modifies this, rcvMsg
      ensures Valid()
      ensures END_LINE in old(Stream()) ==>
        code == |line| + 1 && END_LINE !in line && old(Stream()) == line + ([END_LINE] + Stream())
      ensures END_LINE !in old(Stream()) ==> code == ERROR && Stream() == []
      ensures LeadsTo(old(At()), At())
    {
      line := [];
      var open, atEnd := true, false;
      LeadsToItself(At());
      while !atEnd
        invariant Valid() && END_LINE !in line
        invariant old(Stream()) == Joined(line, atEnd, Stream()) && LeadsTo(old(At()), At())
        decreases !atEnd, |incoming|, rcvPtr
      {
        ghost var before := At();
        line, open, atEnd := ReadPart(line);
        LeadsFurther(old(At()), before, At());
        if !open {
          JoinedNothing(line);
          return ERROR, line;
        }
      }
      code := |line| + 1;
    }

    /** The next connection is accepted: its chunks arrive from now on, and the static variables stay. */
    method Accept(chunks: seq<seq<Byte>>)
      requires Valid() && AreChunks(chunks)
      modifies this`incoming
      ensures Valid() && incoming == chunks && Buffered() == old(Buffered())
    {
      incoming := chunks;
    }
  }

  /** What recv can deliver: at least one byte and at most a buffer full at a time. */
  predicate AreChunks(chunks: seq<seq<Byte>>) {
    forall i :: 0 <= i < |chunks| ==> 1 <= |chunks[i]| <= MAX_MSG
  }

  /** A line, its NUL if it has been seen, and what follows. */
  ghost function Joined(line: seq<Byte>, atEnd: bool, rest: seq<Byte>): seq<Byte> {
    if atEnd then line + ([END_LINE] + rest) else line + rest
  }

  lemma JoinedNothing(line: seq<Byte>)
    ensures Joined(line, false, []) == line
  {}

  lemma Regroup<T>(a: seq<T>, b: seq<T>, c: seq<T>)
    ensures a + (b + c) == a + b + c
  {}

  lemma Rearrange(line: seq<Byte>, chunk: seq<Byte>, copied: seq<Byte>, left: seq<Byte>, rest: seq<Byte>)
    requires chunk == copied + left
    ensures line + (chunk + rest) == (line + copied) + (left + rest)
    ensures forall e, more :: left == e + more ==> left + rest == e + (more + rest)
  {}

  // ----- The server loop -----

  /** The lines before the first empty one. */
  function UntilEmpty(lines: seq<seq<Byte>>): seq<seq<Byte>> {
    if lines == [] || lines[0] == [] then [] else [lines[0]] + UntilEmpty(lines[1..])
  }

  /** The lines up to the first empty one, or all of them. */
  lemma {:induction false} StopsAtEmpty(lines: seq<seq<Byte>>)
    ensures UntilEmpty(lines) <= lines && [] !in UntilEmpty(lines)
    ensures var k := |UntilEmpty(lines)|; k < |lines| ==> lines[k] == []
  {
    if lines != [] && lines[0] != [] {
      StopsAtEmpty(lines[1..]);
    }
  }

  /** What the server loop receives from a stream. */
  function Served(s: seq<Byte>): seq<seq<Byte>> {
    UntilEmpty(Lines(s))
  }

  /** What is left of the stream when the loop ends: what follows the first empty line. */
  function Leftover(s: seq<Byte>): (rest: seq<Byte>)
    ensures |rest| <= |s|
    decreases |s|
  {
    var k := LineLength(s);
    if k == |s| then [] else if k == 0 then s[1..] else Leftover(s[k + 1..])
  }

  /** How much of the stream has been read by then. */
  function Used(s: seq<Byte>): nat {
    |s| - |Leftover(s)|
  }

  /** Where the loop stops. */
  function Stopped(p: Position): Position {
    After(p, Used(Bytes(p)))
  }

  lemma StopsThere(p: Position, q: Position)
    requires LeadsTo(p, q) && Bytes(q) == Leftover(Bytes(p))
    ensures q == Stopped(p)
  {}

  /** Receives from one connection until read_line reports ERROR. */
  method ServeConnection(reader: Reader) returns (received: seq<seq<Byte>>)
    requires reader.Valid()
    modifies reader, reader.rcvMsg
    ensures reader.Valid()
    ensures received == Served(old(reader.Stream()))
    ensures reader.Stream() == Leftover(old(reader.Stream()))
    ensures reader.At() == Stopped(old(reader.At()))
  {
    received := [];
    LeadsToItself(reader.At());
    while true
      invariant reader.Valid() && LeadsTo(old(reader.At()), reader.At())
      invariant received + Served(reader.Stream()) == Served(old(reader.Stream()))
      invariant Leftover(reader.Stream()) == Leftover(old(reader.Stream()))
      decreases |reader.Stream()|
    {
      ghost var s, before := reader.Stream(), reader.At();
      var code, line := reader.ReadLine();
      NextServed(s, line, reader.Stream());
      LeadsFurther(old(reader.At()), before, reader.At());
      if code == ERROR {
        StopsThere(old(reader.At()), reader.At());
        return;
      }
      Regroup(received, [line], Served(reader.Stream()));
      received := received + [line];
    }
  }

  lemma NextServed(s: seq<Byte>, line: seq<Byte>, rest: seq<Byte>)
    ensures END_LINE !in s ==> Served(s) == [] && Leftover(s) == []
    ensures END_LINE in s && END_LINE !in line && s == line + ([END_LINE] + rest) ==>
      && Served(s) == (if line == [] then [] else [line] + Served(rest))
      && Leftover(s) == (if line == [] then rest else Leftover(rest))
  {
    NextLine(s, line, rest);
    if END_LINE !in s {
      assert LineLength(s) == |s|;
    } else if END_LINE !in line && s == line + ([END_LINE] + rest) {
      NextLeftover(line, rest);
    }
  }

  lemma NextLeftover(line: seq<Byte>, rest: seq<Byte>)
    requires END_LINE !in line
    ensures Leftover(line + ([END_LINE] + rest)) == if line == [] then rest else Leftover(rest)
  {
    var s := line + ([END_LINE] + rest);
    assert s == line + [END_LINE] + rest;
    LineLengthOf(line, rest);
    assert LineLength(s) == |line| < |s|;
    assert s[|line| + 1..] == rest;
  }

  lemma NextLine(s: seq<Byte>, line: seq<Byte>, rest: seq<Byte>)
    ensures END_LINE !in s ==> Lines(s) == []
    ensures END_LINE in s && END_LINE !in line && s == line + ([END_LINE] + rest) ==> Lines(s) == [line] + Lines(rest)
  {
    if END_LINE in s && END_LINE !in line && s == line + ([END_LINE] + rest) {
      assert s == line + [END_LINE] + rest;
      LinesOf(line, rest);
    }
  }

  // ----- When every line gets through -----

  lemma {:induction false} NothingLostIff(lines: seq<seq<Byte>>)
    ensures UntilEmpty(lines) == lines <==> [] !in lines
  {
    if lines != [] {
      NothingLostIff(lines[1..]);
      assert lines == [lines[0]] + lines[1..];
    }
  }

  /** A NUL at the start, or right after another one. */
  predicate EmptyAt(s: seq<Byte>, i: nat)
    requires i < |s|
  {
    s[i] == END_LINE && (i == 0 || s[i - 1] == END_LINE)
  }

  /** The stream starts with a NUL, or has two NULs in a row. */
  predicate HasEmptyLine(s: seq<Byte>) {
    exists i :: 0 <= i < |s| && EmptyAt(s, i)
  }

  /** Behind the first NUL, at k, nothing changes; before it nothing is empty. */
  lemma EmptyAtShift(s: seq<Byte>, k: nat, i: nat)
    requires k == LineLength(s) && i < |s|
    ensures if i <= k then EmptyAt(s, i) <==> i == k == 0 else EmptyAt(s, i) <==> EmptyAt(s[k + 1..], i - k - 1)
  {
    if i < k {
      assert s[i] == s[..k][i];
    } else if i == k && k > 0 {
      assert s[k - 1] == s[..k][k - 1];
    }
  }

  lemma FirstLineEmpty(s: seq<Byte>)
    ensures var k := LineLength(s);
      if k == |s| then !HasEmptyLine(s) else HasEmptyLine(s) <==> k == 0 || HasEmptyLine(s[k + 1..])
  {
    var k := LineLength(s);
    if HasEmptyLine(s) {
      var i :| 0 <= i < |s| && EmptyAt(s, i);
      EmptyAtShift(s, k, i);
      assert k < |s| && (k == 0 || EmptyAt(s[k + 1..], i - k - 1));
    }
    if k == 0 && s != [] {
      assert EmptyAt(s, 0);
    }
    if k < |s| && HasEmptyLine(s[k + 1..]) {
      var i :| 0 <= i < |s[k + 1..]| && EmptyAt(s[k + 1..], i);
      EmptyAtShift(s, k, i + k + 1);
      assert EmptyAt(s, i + k + 1);
    }
  }

  lemma {:induction false} EmptyLineIff(s: seq<Byte>)
    ensures [] in Lines(s) <==> HasEmptyLine(s)
    decreases |s|
  {
    var k := LineLength(s);
    FirstLineEmpty(s);
    if k < |s| {
      EmptyLineIff(s[k + 1..]);
      assert k > 0 ==> s[..k] != [];
    }
  }

  /** The loop receives exactly the NUL-terminated lines of the stream if and only if none of them is empty. */
  lemma AllLinesReceivedIff(s: seq<Byte>)
    ensures UntilEmpty(Lines(s)) == Lines(s) <==> !HasEmptyLine(s)
  {
    NothingLostIff(Lines(s));
    EmptyLineIff(s);
  }

  // ----- One connection after the other -----

  /** What is left in the static buffer when a connection's loop ends: the rest of the chunk that holds its first
      empty line. Chunks behind that one are never received. */
  function Kept(buffer: seq<Byte>, chunks: seq<seq<Byte>>): seq<Byte> {
    Stopped(Position(buffer, chunks)).buffer
  }

  /** What each connection in turn is taken to have sent. */
  function Received(buffer: seq<Byte>, connections: seq<seq<seq<Byte>>>): (r: seq<seq<seq<Byte>>>)
    ensures |r| == |connections|
    decreases |connections|
  {
    if connections == [] then []
    else
      [Served(buffer + Concat(connections[0]))] + Received(Kept(buffer, connections[0]), connections[1..])
  }

  /** The accept loop: one reader, with its static variables, for all connections. */
  method ServeAll(connections: seq<seq<seq<Byte>>>) returns (received: seq<seq<seq<Byte>>>)
    requires forall i :: 0 <= i < |connections| ==> AreChunks(connections[i])
    ensures received == Received([], connections)
  {
    var reader := new Reader([]);
    received := [];
    for i := 0 to |connections|
      invariant reader.Valid() && fresh(reader) && fresh(reader.rcvMsg)
      invariant received + Received(reader.Buffered(), connections[i..]) == Received([], connections)
    {
      reader.Accept(connections[i]);
      NextReceived(received, reader.Buffered(), connections, i);
      var lines := ServeConnection(reader);
      received := received + [lines];
    }
  }

  lemma NextReceived(done: seq<seq<seq<Byte>>>, buffer: seq<Byte>, connections: seq<seq<seq<Byte>>>, i: nat)
    requires i < |connections|
    ensures done + Received(buffer, connections[i..])
      == done + [Served(buffer + Concat(connections[i]))] + Received(Kept(buffer, connections[i]), connections[i + 1..])
  {
    assert connections[i..][1..] == connections[i + 1..];
  }

  /** The connection's loop ends right behind a chunk, or right behind what was in the buffer. */
  ghost predicate EndsWithChunk(buffer: seq<Byte>, chunks: seq<seq<Byte>>) {
    IsChunkEnd(Position(buffer, chunks), Used(buffer + Concat(chunks)))
  }

  /** Reading stops behind the first empty line, or at the end of a stream without one. */
  lemma {:induction false} UsedUpToEmptyLine(s: seq<Byte>)
    ensures !HasEmptyLine(s) ==> Used(s) == |s|
    ensures HasEmptyLine(s) ==> 0 < Used(s) <= |s| && EmptyAt(s, Used(s) - 1)
    ensures HasEmptyLine(s) ==> forall i :: 0 <= i < Used(s) - 1 ==> !EmptyAt(s, i)
    decreases |s|
  {
    var k := LineLength(s);
    FirstLineEmpty(s);
    if 0 < k < |s| {
      var rest := s[k + 1..];
      UsedUpToEmptyLine(rest);
      if HasEmptyLine(rest) {
        EmptyAtShift(s, k, Used(s) - 1);
        forall i | 0 <= i < Used(s) - 1
          ensures !EmptyAt(s, i)
        {
          EmptyAtShift(s, k, i);
        }
      }
    }
  }

  lemma {:induction false} EmptyBufferIff(p: Position, used: nat)
    requires used <= |Bytes(p)|
    ensures After(p, used).buffer == [] <==> IsChunkEnd(p, used)
    decreases |p.chunks|
  {
    var rest := p.chunks;
    assert rest[..0] == [];
    if used > |p.buffer| {
      var q := Position(rest[0], rest[1..]);
      EmptyBufferIff(q, used - |p.buffer|);
      ChunkEndShift(p, used);
    } else if used == |p.buffer| {
      assert |p.buffer| + |Concat(rest[..0])| == used;
    }
  }

  /** The position lies right behind the buffer or right behind a chunk. */
  ghost predicate IsChunkEnd(p: Position, used: nat) {
    exists j :: 0 <= j <= |p.chunks| && |p.buffer| + |Concat(p.chunks[..j])| == used
  }

  lemma ChunkEndShift(p: Position, used: nat)
    requires p.chunks != [] && used > |p.buffer|
    ensures IsChunkEnd(p, used) <==> IsChunkEnd(Position(p.chunks[0], p.chunks[1..]), used - |p.buffer|)
  {
    var s, q := p.chunks, Position(p.chunks[0], p.chunks[1..]);
    forall j | 1 <= j <= |s|
      ensures |Concat(s[..j])| == |s[0]| + |Concat(s[1..][..j - 1])|
    {
      assert s[..j][1..] == s[1..][..j - 1];
    }
    if IsChunkEnd(p, used) {
      var j :| 0 <= j <= |s| && |p.buffer| + |Concat(s[..j])| == used;
      assert s[..0] == [];
      assert |q.buffer| + |Concat(q.chunks[..j - 1])| == used - |p.buffer|;
    }
    if IsChunkEnd(q, used - |p.buffer|) {
      var j :| 0 <= j <= |q.chunks| && |q.buffer| + |Concat(q.chunks[..j])| == used - |p.buffer|;
      assert |p.buffer| + |Concat(s[..j + 1])| == used;
    }
  }

  /** A byte that a kept first byte cannot stand for. */
  function Witness(kept: seq<Byte>): (b: Byte)
    requires kept != []
    ensures b != END_LINE && b != kept[0]
  {
    if kept[0] == 1 then 2 else 1
  }

  lemma KeptDisturbs(kept: seq<Byte>)
    requires kept != []
    ensures var b := Witness(kept); Served(kept + [b, END_LINE]) != Served([b, END_LINE])
  {
    var b := Witness(kept);
    var s := kept + [b, END_LINE];
    assert [b, END_LINE] == [b] + [END_LINE];
    ServedLine([b]);
    assert s[|kept| + 1] == END_LINE;
    FirstOfServed(s);
  }

  /** The first line received starts with the first byte of the stream, unless that is a NUL. */
  lemma FirstOfServed(s: seq<Byte>)
    requires END_LINE in s
    ensures if s[0] == END_LINE then Served(s) == []
      else Served(s) != [] && Served(s)[0] != [] && Served(s)[0][0] == s[0]
  {
    var k := LineLength(s);
    assert s == s[..k] + ([END_LINE] + s[k + 1..]);
    NextServed(s, s[..k], s[k + 1..]);
  }

  /** The next connection gets exactly its own lines, whatever it sends, if and only if this one's loop ended right
      behind a chunk: it had no empty line, or the chunk with the first one ended there. */
  lemma NextUndisturbedIff(buffer: seq<Byte>, chunks: seq<seq<Byte>>)
    ensures (forall next :: Served(Kept(buffer, chunks) + next) == Served(next)) <==> EndsWithChunk(buffer, chunks)
  {
    var kept := Kept(buffer, chunks);
    EmptyBufferIff(Position(buffer, chunks), Used(buffer + Concat(chunks)));
    if kept == [] {
      forall next
        ensures Served(kept + next) == Served(next)
      {
        assert kept + next == next;
      }
    } else {
      KeptDisturbs(kept);
    }
  }

  /** If every connection ends that way, each one gets exactly its own lines. */
  lemma {:induction false} AllUndisturbed(connections: seq<seq<seq<Byte>>>, i: nat)
    requires i < |connections|
    requires forall j :: 0 <= j < |connections| ==> EndsWithChunk([], connections[j])
    ensures Received([], connections)[i] == Served(Concat(connections[i]))
  {
    KeptNothing(connections[0]);
    if i == 0 {
      assert [] + Concat(connections[0]) == Concat(connections[0]);
    } else {
      AllUndisturbed(connections[1..], i - 1);
      LaterReceived([], connections, i);
    }
  }

  lemma KeptNothing(chunks: seq<seq<Byte>>)
    requires EndsWithChunk([], chunks)
    ensures Kept([], chunks) == []
  {
    EmptyBufferIff(Position([], chunks), Used([] + Concat(chunks)));
  }

  lemma LaterReceived(buffer: seq<Byte>, connections: seq<seq<seq<Byte>>>, i: nat)
    requires 0 < i < |connections|
    ensures Received(buffer, connections)[i] == Received(Kept(buffer, connections[0]), connections[1..])[i - 1]
  {}

  lemma KeptRest(chunk: seq<Byte>, rest: seq<Byte>)
    requires chunk == [END_LINE] + rest
    ensures Served([] + Concat([chunk])) == [] && Kept([], [chunk]) == rest
  {
    assert Concat([chunk]) == chunk && [] + chunk == chunk == [] + ([END_LINE] + rest);
    NextServed(chunk, [], rest);
    assert chunk[1..] == rest;
    assert After(Position([], [chunk]), 1) == After(Position(chunk, []), 1);
  }

  lemma ServedLine(line: seq<Byte>)
    requires line != [] && END_LINE !in line
    ensures Served(line + [END_LINE]) == [line]
  {
    assert line + [END_LINE] == line + ([END_LINE] + []);
    NextServed(line + [END_LINE], line, []);
    NextServed([], [], []);
  }

  /** The first connection sends one chunk, a NUL and some bytes; the second one gets them into its line. */
  lemma KeptBytesIntrude(rest: seq<Byte>, line: seq<Byte>)
    requires rest != [] && line != [] && END_LINE !in rest && END_LINE !in line
    ensures Received([], [[[END_LINE] + rest], [line + [END_LINE]]]) == [[], [rest + line]]
    ensures Served(line + [END_LINE]) == [line]
  {
    var chunk, second := [END_LINE] + rest, line + [END_LINE];
    KeptRest(chunk, rest);
    assert Concat([second]) == second && rest + second == (rest + line) + [END_LINE];
    ServedLine(rest + line);
    ServedLine(line);
    assert [[chunk], [second]][1..] == [[second]];
  }

  /** Chunks "NUL, A" and "B, NUL": the second connection's line B arrives as AB. */
  lemma KeptByteExample()
    ensures Received([], [[[0, 65]], [[66, 0]]]) == [[], [[65, 66]]] && Served([66, 0]) == [[66]]
  {
    KeptBytesIntrude([65], [66]);
    assert [END_LINE] + [65] == [0, 65] && [66] + [END_LINE] == [66, 0];
    assert [65] + [66] == [65, 66];
  }
}
