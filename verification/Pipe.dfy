/** pipe.c: a one-way byte pipe with a buffer that grows and is compacted in place. */
module Pipe {

  newtype byte = b: int | 0 <= b < 0x100

  const PIPE_BLOCK_SIZE := 8192 * 2
  const PIPE_BUF_MAXSIZE := PIPE_BLOCK_SIZE * 32

  datatype State = CONTINUE | COMPLETE | BROKEN | NEEDWRITE | TIMEOUT | FATAL

  // What poll reports about the two descriptors.
  datatype Events = NoEvents | Events(input: bool, inputGone: bool, output: bool, outputGone: bool)

  // One round of the environment: the events, and how a read or a write would end.  A
  // descriptor delivers or accepts at most what it has been asked for.
  datatype Round = Round(events: Events, readFails: bool, ready: seq<byte>, writeFails: bool, room: nat)

  datatype Option<T> = None | Some(value: T)

  function PollState(e: Events): State {
    match e
    case NoEvents => TIMEOUT
    case Events(input, inputGone, output, outputGone) =>
      if outputGone then FATAL else if inputGone then BROKEN else CONTINUE
  }

  // What can be told from a round, given whether data is pending and whether there is no room
  // for more: the output being gone, a failed write, and a failed read if the output is not ready.
  predicate Fails(r: Round, pending: bool, noRoom: bool)
    requires r.events.Events?
  {
    || r.events.outputGone
    || (r.events.output && r.writeFails && (pending || Arrives(r, noRoom)))
    || (!r.events.output && r.events.input && r.readFails && !noRoom)
  }

  predicate Arrives(r: Round, noRoom: bool)
    requires r.events.Events?
  {
    r.events.input && !noRoom && !r.readFails && r.ready != []
  }

  // The input has ended: a read returns nothing, or there is nothing to read any more.
  predicate Ended(r: Round)
    requires r.events.Events?
  {
    if r.events.input then !r.readFails && r.ready == [] else r.events.inputGone
  }

  // The result of a round of Flush; None: the loop goes on.
  function Outcome(r: Round, pending: bool, noRoom: bool): (state: Option<State>)
    // A failed read is reported exactly if the output is not ready, or its write fails as well.
    ensures r.events.Events? && !r.events.outputGone && r.events.input && r.readFails && !noRoom
            ==> (state == Some(FATAL) <==> !r.events.output || (r.writeFails && pending))
    // The end of the input, or success, is reported exactly if the output is ready, nothing is
    // pending and nothing comes in; which of them, the read or the lack of one decides.
    ensures state == Some(BROKEN) || state == Some(COMPLETE) <==>
              && r.events.Events? && !r.events.outputGone && r.events.output && !pending
              && (r.events.input ==> noRoom || r.readFails || r.ready == [])
    ensures state == Some(BROKEN) ==>
              if r.events.input then !r.readFails && r.ready == [] else r.events.inputGone
    ensures state == Some(COMPLETE) && !noRoom ==>
              if r.events.input then r.readFails else !r.events.inputGone
    ensures state == Some(TIMEOUT) <==> r.events == NoEvents
    // The output is gone, a write fails, or a read fails and there is nothing to write to.
    ensures state == Some(FATAL) <==>
              && r.events.Events?
              && (|| r.events.outputGone
                  || (r.events.output && r.writeFails &&
                      (pending || (r.events.input && !noRoom && !r.readFails && r.ready != [])))
                  || (!r.events.output && r.events.input && r.readFails && !noRoom))
    ensures state != Some(NEEDWRITE) && state != Some(CONTINUE)
  {
    if r.events.NoEvents? then Some(TIMEOUT)
    else if Fails(r, pending, noRoom) then Some(FATAL)
    else if !r.events.output || pending || Arrives(r, noRoom) then None
    else if Ended(r) then Some(BROKEN)
    else Some(COMPLETE)
  }

  // What a round finds: how many bytes wait to be written, and for how many there is room.
  datatype Look = Look(waiting: nat, space: nat)

  // How many bytes a round reads, and how many it writes of those that wait then.
  function Comes(r: Round, space: nat): nat {
    if r.events.Events? && !r.events.outputGone && r.events.input && !r.readFails then Min(|r.ready|, space) else 0
  }

  function Left(r: Round, l: Look): nat {
    l.waiting + Comes(r, l.space) - Goes(r, l.waiting + Comes(r, l.space))
  }

  function Goes(r: Round, waiting: nat): nat {
    if r.events.Events? && !r.events.outputGone && r.events.output && !r.writeFails then Min(r.room, waiting) else 0
  }

  // What a read and a write return.
  function ReadResult(readFails: bool, ready: seq<byte>, pending: bool, noRoom: bool): State {
    if noRoom || (!readFails && ready == [] && pending) then NEEDWRITE
    else if readFails then FATAL
    else if ready == [] then BROKEN
    else CONTINUE
  }

  function WriteResult(writeFails: bool, pending: bool): State {
    if !pending then COMPLETE else if writeFails then FATAL else CONTINUE
  }

  function GoesOn(s: State): Option<State> {
    if s == NEEDWRITE || s == CONTINUE then None else Some(s)
  }

  function AfterWrite(r: Round, s: State, res: State): Option<State>
    requires r.events.Events?
  {
    if r.events.output then if s == BROKEN && res == COMPLETE then Some(BROKEN) else GoesOn(res)
    else if s == BROKEN then None
    else GoesOn(s)
  }

  lemma EarlyOutcome(r: Round, pending: bool, noRoom: bool)
    ensures PollState(r.events) !in {CONTINUE, BROKEN} ==> Outcome(r, pending, noRoom) == Some(PollState(r.events))
  {}

  // How the results of a round's read and write combine.
  lemma Combined(r: Round, pending: bool, noRoom: bool, s: State, res: State)
    requires r.events.Events? && !r.events.outputGone && (noRoom ==> pending)
    requires s == if r.events.input then ReadResult(r.readFails, r.ready, pending, noRoom) else PollState(r.events)
    requires res == WriteResult(r.writeFails, pending || Arrives(r, noRoom))
    ensures Outcome(r, pending, noRoom) == AfterWrite(r, s, res)
  {}

  function Min(a: nat, b: nat): (m: nat)
    ensures m <= a && m <= b && (m == a || m == b)
  {
    if a < b then a else b
  }

  // memcpy
  method CopyInto(dst: array<byte>, at: nat, src: seq<byte>)
    requires at + |src| <= dst.Length
    modifies dst
    ensures dst[at..at + |src|] == src
    ensures forall i :: 0 <= i < at || at + |src| <= i < dst.Length ==> dst[i] == old(dst[i])
  {
    for i := 0 to |src|
      invariant forall k :: 0 <= k < i ==> dst[at + k] == src[k]
      invariant forall k :: 0 <= k < at || at + |src| <= k < dst.Length ==> dst[k] == old(dst[k])
    {
      dst[at + i] := src[i];
    }
  }

  // memmove to the front
  method MoveDown(a: array<byte>, from: nat, n: nat)
    requires from + n <= a.Length
    modifies a
    ensures a[..n] == old(a[from..from + n])
  {
    ghost var was := a[..];
    for i := 0 to n
      invariant forall k :: 0 <= k < i ==> a[k] == was[from + k]
      invariant forall k :: i <= k < a.Length ==> a[k] == was[k]
    {
      a[i] := a[from + i];
    }
  }

  class DataPipe {
    // The pointers of the source are offsets into buf, whose last byte is never used.
    var buf: array<byte>
    var bufend: nat
    var dataend: nat
    var pos: nat
    var maxsize: nat
    // All bytes read from the input and written to the output, and the largest limit set so far.
    ghost var input: seq<byte>
    ghost var written: seq<byte>
    ghost var peak: nat

    ghost predicate Valid()
      reads this, buf
    {
      && pos <= dataend <= bufend == buf.Length - 1
      && 0 < maxsize <= peak && PIPE_BLOCK_SIZE <= bufend < peak + PIPE_BLOCK_SIZE
      && written + Pending() == input
    }

    // Read, but not yet written.
    ghost function Pending(): seq<byte>
      requires pos <= dataend <= buf.Length
      reads this, buf
    {
      buf[pos..dataend]
    }

    // The buffer is full of pending data and may not grow.
    ghost predicate HasNoRoom()
      reads this
    {
      pos != dataend && dataend == bufend && bufend >= maxsize
    }

    // For how many bytes a read has room: an empty buffer starts over, a full one may grow.
    ghost function Space(): (n: nat)
      requires dataend <= bufend && bufend != 0
      reads this
      ensures n == 0 <==> HasNoRoom()
    {
      if pos == dataend then bufend
      else if dataend < bufend then bufend - dataend
      else if bufend < maxsize then PIPE_BLOCK_SIZE
      else 0
    }

    constructor ()
      ensures Valid() && input == written == [] && bufend == 0x4000 && maxsize == 0x80000 && fresh(buf)
    {
      buf := new byte[PIPE_BLOCK_SIZE + 1];
      bufend, dataend, pos := PIPE_BLOCK_SIZE, 0, 0;
      maxsize, peak := PIPE_BUF_MAXSIZE, PIPE_BUF_MAXSIZE;
      input, written := [], [];
    }

    method SetMaxSize(size: nat)
      requires Valid()
      modifies this`maxsize, this`peak
      ensures Valid() && input == old(input) && written == old(written)
      ensures maxsize == if size == 0 then old(maxsize) else size
    {
      if size != 0 {
        maxsize := size;
        peak := if peak < size then size else peak;
      }
    }

    // realloc to a larger size.
    method Grow()
      requires Valid() && bufend < maxsize && dataend == bufend
      modifies this`buf, this`bufend, this`dataend, this`pos
      ensures Valid() && fresh(buf) && bufend == old(bufend) + PIPE_BLOCK_SIZE
      ensures dataend == old(dataend) && pos == old(pos) && Pending() == old(Pending())
    {
      var bufsize, pos_offset := bufend, pos;
      var bigger := new byte[bufsize + PIPE_BLOCK_SIZE + 1];
      CopyInto(bigger, 0, buf[..bufsize]);
      assert bigger[..bufsize][pos..dataend] == buf[..bufsize][pos..dataend];
      assert bigger[..bufsize][pos..dataend] == bigger[pos..dataend] &&
          buf[..bufsize][pos..dataend] == buf[pos..dataend];
      buf := bigger;
      bufend := bufsize + PIPE_BLOCK_SIZE;
      dataend := bufsize;
      pos := pos_offset;
    }

    // Read's first steps: an empty buffer starts over, a full one grows if it may.
    method MakeRoom()
      requires Valid()
      modifies this`buf, this`bufend, this`dataend, this`pos
      ensures Valid() && Pending() == old(Pending()) && (buf == old(buf) || fresh(buf))
      ensures dataend == bufend <==> old(HasNoRoom())
      ensures bufend - dataend == old(Space())
      ensures dataend == bufend ==> Pending() != []
      ensures pos == dataend ==> dataend == 0
    {
      if pos == dataend {
        pos := 0;
        dataend := 0;
      }
      if dataend == bufend {
        if bufend < maxsize {
          Grow();
        }
      }
    }

    method Append(got: seq<byte>)
      requires Valid() && |got| <= bufend - dataend
      modifies this`dataend, this`input, buf
      ensures Valid() && input == old(input) + got && Pending() == old(Pending()) + got
    {
      ghost var pending := Pending();
      CopyInto(buf, dataend, got);
      assert Pending() == pending;
      assert buf[pos..dataend + |got|] == buf[pos..dataend] + buf[dataend..dataend + |got|];
      dataend := dataend + |got|;
      input := input + got;
    }

    // readFails and ready are what read (2) would return.
    method Read(readFails: bool, ready: seq<byte>) returns (state: State, ghost got: seq<byte>)
      requires Valid()
      modifies this`buf, this`bufend, this`dataend, this`pos, this`input, buf
      ensures Valid() && input == old(input) + got && got <= ready && (buf == old(buf) || fresh(buf))
      ensures Pending() == old(Pending()) + got
      // Nothing to read and nothing to write; nothing to read, or no room to, while data waits.
      ensures state == ReadResult(readFails, ready, old(Pending()) != [], old(HasNoRoom()))
      ensures state == FATAL <==> readFails && !old(HasNoRoom())
      ensures state in {CONTINUE, BROKEN, NEEDWRITE, FATAL} && (state == CONTINUE <==> got != [])
      // As much is taken as there is room for.
      ensures |got| == if readFails then 0 else Min(|ready|, old(Space()))
      ensures old(Pending()) == [] ==> pos == 0
    {
      got := [];
      MakeRoom();
      if bufend - dataend > 0 {
        if readFails {
          return FATAL, got;
        }
        var nread := Min(|ready|, bufend - dataend);
        if nread == 0 {
          return if pos == dataend then BROKEN else NEEDWRITE, got;
        }
        got := ready[..nread];
        Append(ready[..nread]);
      } else {
        // The source also shrinks the buffer here if nothing is pending.  That cannot be:
        // MakeRoom has emptied the buffer then, and a block has room.
        assert pos != dataend;
        return NEEDWRITE, got;
      }
      return CONTINUE, got;
    }

    method Write(writeFails: bool, room: nat) returns (state: State, ghost put: seq<byte>)
      requires Valid()
      modifies this`pos, this`written
      ensures Valid() && input == old(input) && written == old(written) + put && put <= old(Pending())
      ensures state == WriteResult(writeFails, old(Pending()) != [])
      ensures state in {CONTINUE, COMPLETE, FATAL} && (state != CONTINUE ==> put == [])
      ensures |put| == if writeFails then 0 else Min(room, |old(Pending())|)
    {
      put := [];
      if dataend - pos > 0 {
        if writeFails {
          return FATAL, put;
        }
        var nwrite := Min(room, dataend - pos);
        put := buf[pos..pos + nwrite];
        assert buf[pos..dataend] == put + buf[pos + nwrite..dataend];
        pos := pos + nwrite;
        written := written + put;
      } else {
        return COMPLETE, put;
      }
      return CONTINUE, put;
    }

    // The first half of a round: reads if the input is ready.
    method ReadIfReady(r: Round) returns (s: State)
      requires Valid() && r.events.Events? && !r.events.outputGone
      modifies this`buf, this`bufend, this`dataend, this`pos, this`input, buf
      ensures Valid() && old(input) <= input && (buf == old(buf) || fresh(buf))
      ensures s == if r.events.input then ReadResult(r.readFails, r.ready, old(Pending()) != [], old(HasNoRoom()))
                   else PollState(r.events)
      ensures s in {CONTINUE, BROKEN, NEEDWRITE, FATAL}
      ensures Pending() != [] <==> old(Pending()) != [] || Arrives(r, old(HasNoRoom()))
      ensures input == old(input) + r.ready[..Comes(r, old(Space()))]
      ensures |Pending()| == old(|Pending()|) + Comes(r, old(Space()))
    {
      s := PollState(r.events);
      if r.events.input {
        ghost var got;
        s, got := Read(r.readFails, r.ready);
      }
    }

    // The second half: writes if the output is ready.
    method WriteIfReady(r: Round, s: State) returns (state: Option<State>)
      requires Valid() && r.events.Events? && s in {CONTINUE, BROKEN, NEEDWRITE, FATAL}
      modifies this`pos, this`written
      ensures Valid() && old(written) <= written && input == old(input)
      ensures !r.events.outputGone ==> |written| == old(|written|) + Goes(r, old(|Pending()|))
      ensures state == AfterWrite(r, s, WriteResult(r.writeFails, old(Pending()) != []))
      ensures state == Some(COMPLETE) || state == Some(BROKEN) ==> Pending() == []
    {
      var res := s;
      if r.events.output {
        ghost var put;
        res, put := Write(r.writeFails, r.room);
        if s == BROKEN && res == COMPLETE {
          return Some(BROKEN);
        }
      } else if s == BROKEN {
        return None;
      }
      return GoesOn(res);
    }

    // One round of Flush; None: the loop goes on.
    method Turn(r: Round) returns (state: Option<State>)
      requires Valid()
      modifies this`buf, this`bufend, this`dataend, this`pos, this`input, this`written, buf
      ensures Valid() && old(written) <= written && old(input) <= input && (buf == old(buf) || fresh(buf))
      ensures state == Some(COMPLETE) || state == Some(BROKEN) ==> Pending() == []
      ensures state == Outcome(r, old(Pending()) != [], old(HasNoRoom()))
      // The output is ready, nothing is to be written and no bytes come in: the input has ended if
      // a read returns nothing, or if it is gone and there is nothing to read.  Else all is done.
      ensures r.events.Events? && r.events.output && !r.events.outputGone && old(Pending()) == [] &&
              (r.events.input ==> r.readFails || r.ready == []) ==>
          state == Some(if (if r.events.input then !r.readFails else r.events.inputGone) then BROKEN else COMPLETE)
      // What is read goes behind what is there, and as much of all that is written as can be.
      ensures input == old(input) + r.ready[..Comes(r, old(Space()))]
      ensures |written| == old(|written|) + Goes(r, old(|Pending()|) + Comes(r, old(Space())))
      ensures |Pending()| == Left(r, Look(|old(Pending())|, old(Space())))
    {
      hide Outcome, Fails, Arrives, Ended, ReadResult, WriteResult;
      ghost var pending, noRoom := Pending() != [], HasNoRoom();
      var s := PollState(r.events);
      EarlyOutcome(r, pending, noRoom);
      if s == CONTINUE || s == BROKEN {
        s := ReadIfReady(r);
        Combined(r, pending, noRoom, s, WriteResult(r.writeFails, Pending() != []));
        state := WriteIfReady(r, s);
        return;
      }
      return Some(s);
    }

    // Polls, reads and writes until there is an outcome; None: the environment's rounds are
    // used up and the loop would go on.
    method Flush(rounds: seq<Round>) returns (state: Option<State>, ghost seen: seq<Look>)
      requires Valid()
      modifies this`buf, this`bufend, this`dataend, this`pos, this`input, this`written, buf
      ensures Valid() && old(written) <= written && old(input) <= input
      // Success, or the end of the input, is reported only when all that was read is written.
      ensures state == Some(COMPLETE) || state == Some(BROKEN) ==> Pending() == [] && written == input
      // The rounds before the last one used have no outcome, and that one has this one.
      ensures |seen| <= |rounds| && (state == None ==> |seen| == |rounds|) && (state.Some? ==> seen != [])
      ensures seen != [] ==> seen[0] == Look(|old(Pending())|, old(Space()))
      ensures forall k :: 0 <= k < |seen| ==>
                Outcome(rounds[k], seen[k].waiting != 0, seen[k].space == 0) == if k < |seen| - 1 then None else state
      // What waits after a round is what waited before it and what came, without what went.
      ensures forall k :: 0 <= k < |seen| - 1 ==> Left(rounds[k], seen[k]) == seen[k + 1].waiting
      ensures seen != [] ==> Left(rounds[|seen| - 1], seen[|seen| - 1]) == |Pending()|
      // What the last round was like if the input is said to have ended, or all to be done.
      ensures state == Some(BROKEN) || state == Some(COMPLETE) ==>
          var e := rounds[|seen| - 1].events;
          e.Events? && e.output && !e.outputGone && seen[|seen| - 1].waiting == 0
      ensures state == Some(BROKEN) ==>
          var r := rounds[|seen| - 1];
          if r.events.input then !r.readFails && r.ready == [] else r.events.inputGone
      ensures state == Some(COMPLETE) ==>
          var r := rounds[|seen| - 1];
          if r.events.input then r.readFails else !r.events.inputGone
    {
      hide Outcome, Left;
      seen := [];
      state := None;
      for i := 0 to |rounds|
        invariant Valid() && old(written) <= written && old(input) <= input && state == None
        invariant |seen| == i && (buf == old(buf) || fresh(buf))
        invariant seen == [] ==> Pending() == old(Pending()) && Space() == old(Space())
        invariant seen != [] ==> seen[0] == Look(|old(Pending())|, old(Space()))
        invariant forall k :: 0 <= k < i ==> Outcome(rounds[k], seen[k].waiting != 0, seen[k].space == 0) == None
        invariant forall k :: 0 <= k < i - 1 ==> Left(rounds[k], seen[k]) == seen[k + 1].waiting
        invariant i > 0 ==> Left(rounds[i - 1], seen[i - 1]) == |Pending()|
      {
        seen := seen + [Look(|Pending()|, Space())];
        state := Turn(rounds[i]);
        if state.Some? {
          assert written + [] == written;
          return;
        }
      }
    }

    // Moves what lies from upto on to the front of the buffer; by default what is pending.
    method CleanBefore(upto: Option<nat>)
      requires Valid()
      requires upto.Some? ==> upto.value <= bufend
      modifies this`dataend, this`pos, buf
      ensures pos == 0 <= dataend <= bufend
      ensures var u := if upto.None? then old(pos) else upto.value;
              && Pending() == (if u < old(dataend) then old(buf[u..dataend]) else [])
              // Bytes are neither lost nor repeated exactly when upto is pos, or nothing is pending
              // and upto not below the end of the data.
              && (Valid() <==> u == old(pos) || (old(pos) == old(dataend) <= u))
    {
      ghost var pending := Pending();
      var u := if upto.None? then pos else upto.value;
      ghost var kept := if u < dataend then buf[u..dataend] else [];
      KeptIffSame(written, pending, kept);
      if u < dataend {
        var n := dataend - u;
        MoveDown(buf, u, n);
        dataend := n;
        pos := 0;
      } else {
        pos := 0;
        dataend := 0;
      }
    }

    static lemma KeptIffSame(written: seq<byte>, pending: seq<byte>, kept: seq<byte>)
      ensures written + kept == written + pending <==> kept == pending
    {
      if written + kept == written + pending {
        assert kept == (written + kept)[|written|..];
        assert pending == (written + pending)[|written|..];
      }
    }
  }

  // A read that fails goes unreported: the output is ready and there is nothing to write, so the
  // flush calls it a success.
  method FailureUnreported() returns (r: Round, state: Option<State>)
    ensures r.events.Events? && !r.events.outputGone && r.events.input && r.readFails && state == Some(COMPLETE)
  {
    var pipe := new DataPipe();
    r := Round(Events(true, false, true, false), true, [], false, 1);
    assert |pipe.written + pipe.Pending()| == 0;
    ghost var seen;
    state, seen := pipe.Flush([r]);
  }

  // Cleaning up to the last byte read loses the bytes before it.
  method BytesLost() returns (pipe: DataPipe)
    ensures pipe.input == [1, 2] && pipe.written == [] && pipe.pos <= pipe.dataend <= pipe.buf.Length
    ensures pipe.Pending() == [2] && !pipe.Valid()
  {
    pipe := new DataPipe();
    ghost var got;
    var state;
    assert |pipe.written + pipe.Pending()| == 0;
    state, got := pipe.Read(false, [1, 2]);
    assert got == [1, 2];
    assert pipe.buf[1..pipe.dataend] == pipe.Pending()[1..];
    pipe.CleanBefore(Some(1));
  }
}
