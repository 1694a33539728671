/**
 Reading the SSH identification line (section 4.2 of RFC 4253) from a stream that
 arrives in arbitrary pieces, and handing on what was read beyond it.
 */
module SshId {
  import opened Wrappers
  import opened NameLists

  const BUFFER_SIZE: nat := 256
  const CR: Byte := 13
  const LF: Byte := 10

  /** "SSH-2.0-" */
  const PREFIX: Bytes := [83, 83, 72, 45, 50, 46, 48, 45]

  /** The underlying reader: bytes still to come, and an arbitrary schedule that decides
      how many of them each read delivers. */
  class ByteStream {
    var pending: Bytes
    const schedule: nat -> nat
    var calls: nat

    constructor (bytes: Bytes, schedule: nat -> nat)
      ensures pending == bytes && this.schedule == schedule
    {
      pending, this.schedule, calls := bytes, schedule, 0;
    }

    /** At least one byte if there is room and there is any left; nothing otherwise. */
    method Read(room: nat) returns (chunk: Bytes)
      modifies this
      ensures old(pending) == chunk + pending
      ensures |chunk| <= room
      ensures chunk == [] <==> room == 0 || old(pending) == []
    {
      var most := if room <= |pending| then room else |pending|;
      var n := schedule(calls);
      calls := calls + 1;
      if n > most {
        n := most;
      } else if n == 0 && most > 0 {
        n := 1;
      }
      chunk := pending[..n];
      pending := pending[n..];
    }
  }

  // ------------------------------------------------------------------ lines

  /** `e` is the first line feed behind the first byte. */
  ghost predicate LineEnd(s: Bytes, e: int) {
    1 <= e < |s| && s[e] == LF && forall j :: 1 <= j < e ==> s[j] != LF
  }

  ghost predicate NoLineEnd(s: Bytes) {
    forall j :: 1 <= j < |s| ==> s[j] != LF
  }

  /** The line without its CR LF or LF. */
  ghost function Line(s: Bytes, e: int): Bytes
    requires LineEnd(s, e)
  {
    if s[e - 1] == CR then s[..e - 1] else s[..e]
  }

  /** A first line that ends within the buffer and starts with "SSH-2.0-" is returned
      without its terminator, and exactly the bytes behind the terminator stay pending; a
      stream without a line end within the buffer is a disconnect. */
  ghost predicate Outcome(stream: Bytes, out: Result<Bytes, ()>, pending: Bytes) {
    && (forall e :: LineEnd(stream, e) && e < BUFFER_SIZE && PREFIX <= stream ==>
                      out == Ok(Line(stream, e)) && pending == stream[e + 1..])
    && ((forall e :: LineEnd(stream, e) ==> e >= BUFFER_SIZE) ==> out.Err?)
  }

  /** The first line is complete within the buffer and is not an identification. */
  ghost predicate Preliminary(stream: Bytes) {
    !(PREFIX <= stream) && exists e :: LineEnd(stream, e) && e < BUFFER_SIZE
  }

  /** Discarding `t` bytes, at most a buffer full, among them a whole preliminary line. */
  ghost predicate Discards(stream: Bytes, t: int) {
    && 0 < t <= |stream| && t <= BUFFER_SIZE
    && !(PREFIX <= stream) && exists e :: LineEnd(stream, e) && e < t
  }

  /** `left` is what is left of the stream after discarding any number of times. */
  ghost predicate Behind(stream: Bytes, left: Bytes)
    decreases |stream|
  {
    left == stream || exists t :: Discards(stream, t) && Behind(stream[t..], left)
  }

  /** The outcome is that of what is left of the stream behind some discarded bytes, which
      does not start with a preliminary line again. */
  ghost predicate OutcomeBehind(stream: Bytes, left: Bytes, out: Result<Bytes, ()>, pending: Bytes) {
    Behind(stream, left) && !Preliminary(left) && Outcome(left, out, pending)
  }

  /** These bytes start with a complete identification line. */
  ghost predicate IdentifiedBy(s: Bytes) {
    PREFIX <= s && exists e :: LineEnd(s, e)
  }

  // ------------------------------------------------------------------ the reader

  class ReadSshIdBuffer {
    var buf: Bytes
    var total: nat
    var bytesRead: nat
    var sshidLen: nat

    ghost predicate Valid()
      reads this
    {
      |buf| == BUFFER_SIZE && bytesRead <= total <= BUFFER_SIZE
    }

    constructor ()
      ensures Valid() && |buf| == 256 && total == 0 && bytesRead == 0 && sshidLen == 0
    {
      buf := seq(BUFFER_SIZE, _ => 0);
      total, bytesRead, sshidLen := 0, 0, 0;
    }

    /** Look for a line end in what has been read: `i` is the length of the line. */
    method Scan() returns (i: nat, ghost e: int)
      requires Valid() && total > 0
      modifies this`bytesRead
      ensures Valid() && i < total
      ensures e < 0 ==> NoLineEnd(buf[..total]) && bytesRead == old(bytesRead)
      ensures e >= 0 ==> LineEnd(buf[..total], e) && bytesRead == e + 1 && buf[..i] == Line(buf[..total], e)
    {
      i, e := 0, -1;
      while i < total - 1
        invariant 0 <= i < total
        invariant forall j :: 1 <= j <= i ==> buf[j] != LF
      {
        if buf[i] == CR && buf[i + 1] == LF {
          bytesRead := i + 2;
          e := i + 1;
          return;
        } else if buf[i + 1] == LF {
          bytesRead := i + 2;
          i := i + 1;
          e := i;
          return;
        } else {
          i := i + 1;
        }
      }
    }
  }

  class SshRead {
    var id: ReadSshIdBuffer?
    const r: ByteStream

    ghost predicate Valid()
      reads this, id
    {
      id != null ==> id.Valid()
    }

    /** The bytes that later reads deliver: what is buffered beyond the line, then the stream. */
    ghost function Pending(): Bytes
      requires Valid()
      reads this, id, r
    {
      (if id != null then id.buf[id.bytesRead..id.total] else []) + r.pending
    }

    constructor (r: ByteStream)
      ensures Valid() && this.r == r && id != null && fresh(id)
      ensures id.total == 0 && id.bytesRead == 0
    {
      id := new ReadSshIdBuffer();
      this.r := r;
    }

    /** The buffer holds the start of `stream`, without a line end so far. */
    ghost predicate Tracking(stream: Bytes)
      requires id != null && id.Valid()
      reads this, id, r
    {
      id.bytesRead == 0 && stream == id.buf[..id.total] + r.pending && NoLineEnd(id.buf[..id.total])
    }

    /** Everything the reader has not discarded: its buffer and what is still to come. */
    ghost function Stream(): Bytes
      requires id != null && id.Valid()
      reads this, id, r
    {
      id.buf[..id.total] + r.pending
    }

    /** No line end has been read yet: a new reader, or one whose stream ended too early. */
    ghost predicate Searching()
      requires id != null && id.Valid()
      reads this, id
    {
      id.bytesRead == 0 && NoLineEnd(id.buf[..id.total])
    }

    /** The identification line is in the buffer: a reader that has found it before. */
    ghost predicate Found()
      requires id != null && id.Valid()
      reads this, id
    {
      IdentifiedBy(id.buf[..id.total])
    }

    /** The next read brings nothing. */
    ghost predicate Exhausted()
      requires id != null
      reads this, id, r
    {
      id.total == BUFFER_SIZE || r.pending == []
    }

    /** On a reader that is searching the outcome is the one the whole stream determines,
        however the stream is cut into pieces, unless it starts with a preliminary line.
        With each preliminary line the whole buffer is discarded, so then the pieces
        decide how many bytes go, and the rest of the stream determines the outcome. A
        reader that has found the line finds it again, if it can read anything at all. */
    method ReadSshId() returns (out: Result<Bytes, ()>, ghost left: Bytes)
      requires Valid() && id != null
      modifies r, id
      ensures Valid() && id == old(id)
      ensures old(Searching()) ==> Outcome(old(Stream()), out, Pending())
      ensures old(Searching()) ==> OutcomeBehind(old(Stream()), left, out, Pending())
      ensures old(Found()) && !old(Exhausted()) ==> OutcomeBehind(old(Stream()), old(Stream()), out, Pending())
      ensures old(Found()) && old(Exhausted()) ==> out.Err?
      ensures old(Found()) || (old(Searching()) && out.Ok?) ==> Found()
      ensures old(Searching()) && out.Err? ==> Searching()
    {
      ghost var stream, searching, found, stuck := Stream(), Searching(), Found(), Exhausted();
      out, left := Err(()), stream;
      var done := false;
      while !done
        invariant Valid() && id == old(id)
        invariant searching && !done ==> Tracking(left) && Behind(stream, left)
        invariant searching && done ==> OutcomeBehind(stream, left, out, Pending())
        invariant found && !done ==> Found() && Stream() == stream && Exhausted() == stuck
        invariant found && done ==> if stuck then out.Err? else OutcomeBehind(stream, stream, out, Pending())
        invariant done && (found || (searching && out.Ok?)) ==> Found()
        invariant done && searching && out.Err? ==> Searching()
        decreases if done then 0 else 1 + |r.pending|
      {
        done, out, left := Turn(stream, left, searching, found);
      }
      if searching {
        BehindIsOutcome(stream, left, out, Pending());
      }
    }

    /** One turn of the reading loop: read, look for a line, accept or discard it. */
    method Turn(ghost stream: Bytes, ghost left0: Bytes, ghost searching: bool, ghost found: bool)
      returns (done: bool, out: Result<Bytes, ()>, ghost left: Bytes)
      requires Valid() && id != null && (searching ==> Tracking(left0) && Behind(stream, left0))
      requires found ==> Found() && Stream() == stream
      modifies r, id
      ensures Valid() && id == old(id)
      ensures !done ==> |r.pending| < |old(r.pending)|
      ensures searching && !done ==> Tracking(left) && Behind(stream, left)
      ensures searching && done ==> OutcomeBehind(stream, left, out, Pending())
      ensures found ==> done && if old(Exhausted()) then out.Err? else OutcomeBehind(stream, stream, out, Pending())
      ensures done && (found || (searching && out.Ok?)) ==> Found()
      ensures done && searching && out.Err? ==> Searching()
    {
      done, out, left := false, Err(()), left0;
      ghost var before := id.buf[..id.total];
      var n := Fill();
      if n == 0 {
        if searching {
          NoLineWithin(left, id.buf[..id.total], r.pending, Pending());
        }
        return true, Err(()), left;
      }
      if found {
        StillIdentified(before, id.buf[..id.total], stream);
      }
      var i;
      ghost var e;
      i, e := id.Scan();
      if id.bytesRead > 0 {
        ghost var head := id.buf[..id.total];
        done := Decide(i, e, if found then stream else left);
        if done {
          out := Ok(id.buf[..id.sshidLen]);
        } else {
          if searching {
            DiscardMore(stream, left, head, r.pending);
          }
          left := r.pending;
        }
      }
    }

    /** A full line: accept it as the identification, or discard what has been read. */
    method Decide(i: nat, ghost e: int, ghost stream: Bytes) returns (found: bool)
      requires Valid() && id != null && i < id.total
      requires e >= 0 ==> LineEnd(id.buf[..id.total], e) && id.bytesRead == e + 1
                          && id.buf[..i] == Line(id.buf[..id.total], e)
      modifies id
      ensures Valid() && (found ==> id.sshidLen <= BUFFER_SIZE)
      ensures found && e >= 0 && stream == old(id.buf[..id.total] + r.pending) ==>
                Outcome(stream, Ok(id.buf[..id.sshidLen]), Pending()) && !Preliminary(stream)
      ensures found && e >= 0 ==> Found()
      ensures !found ==> id.total == 0 && id.bytesRead == 0
      ensures !found && e >= 0 && stream == old(id.buf[..id.total] + r.pending) ==>
                Preliminary(stream) && Discards(stream, old(id.total))
    {
      ghost var head, rest := id.buf[..id.total], r.pending;
      if e >= 0 && stream == head + rest {
        LineFound(stream, head, rest, e, id.buf[..i]);
        assert i >= 8 ==> head[..8] == id.buf[..8];
        assert id.buf[id.bytesRead..id.total] == head[e + 1..];
      }
      if i >= 8 && id.buf[..8] == PREFIX {
        assert head[..8] == id.buf[..8];
        id.sshidLen := i;
        return true;
      }
      id.total := 0;
      id.bytesRead := 0;
      found := false;
    }

    /** One read into the free part of the buffer. */
    method Fill() returns (n: nat)
      requires Valid() && id != null
      modifies r, id`total, id`buf
      ensures Valid() && id.total == old(id.total) + n
      ensures id.buf[..id.total] + r.pending == old(id.buf[..id.total] + r.pending)
      ensures |r.pending| == |old(r.pending)| - n
      ensures old(id.buf[..id.total]) <= id.buf[..id.total]
      ensures n == 0 ==> id.buf[..id.total] == old(id.buf[..id.total]) && (id.total == BUFFER_SIZE || r.pending == [])
      ensures n == 0 <==> old(id.total == BUFFER_SIZE || r.pending == [])
    {
      ghost var before, rest := id.buf[..id.total], r.pending;
      var chunk := r.Read(BUFFER_SIZE - id.total);
      n := |chunk|;
      id.buf := id.buf[..id.total] + chunk + id.buf[id.total + n..];
      id.total := id.total + n;
      assert id.buf[..id.total] == before + chunk;
      assert before + chunk + r.pending == before + (chunk + r.pending);
    }

    /** Later reads: first what is buffered, then the stream itself. */
    method PollRead(room: nat) returns (out: Bytes)
      requires Valid()
      modifies this, id, r
      ensures Valid()
      ensures |out| <= room && old(Pending()) == out + Pending()
      ensures room > 0 && old(Pending()) != [] ==> out != []
    {
      var buffer := id;
      id := null;
      if buffer != null {
        if buffer.total > buffer.bytesRead {
          var most := buffer.bytesRead + room;
          var total := if buffer.total <= most then buffer.total else most;
          out := buffer.buf[buffer.bytesRead..total];
          ghost var all := buffer.buf[buffer.bytesRead..buffer.total];
          assert all == out + buffer.buf[total..buffer.total];
          buffer.bytesRead := total;
          id := buffer;
          return;
        }
      }
      out := r.Read(room);
    }
  }

  /** More bytes do not change that a line was found. */
  lemma StillIdentified(before: Bytes, head: Bytes, stream: Bytes)
    requires IdentifiedBy(before) && before <= head <= stream && |head| <= BUFFER_SIZE
    ensures IdentifiedBy(head) && !NoLineEnd(head) && !Preliminary(stream)
  {
    var e :| LineEnd(before, e);
    assert LineEnd(head, e);
    assert forall j :: 0 <= j < |PREFIX| ==> stream[j] == before[j];
  }

  /** Nothing more to read and no line end so far. */
  lemma NoLineWithin(stream: Bytes, head: Bytes, rest: Bytes, pending: Bytes)
    requires stream == head + rest && NoLineEnd(head)
    requires |head| == BUFFER_SIZE || rest == []
    ensures Outcome(stream, Err(()), pending) && !Preliminary(stream)
  {
    assert forall j :: 0 <= j < |head| ==> stream[j] == head[j];
  }

  /** The outcome behind discarded bytes is an outcome of the stream, of which nothing is
      promised if it starts with a preliminary line. */
  lemma BehindIsOutcome(stream: Bytes, left: Bytes, out: Result<Bytes, ()>, pending: Bytes)
    requires OutcomeBehind(stream, left, out, pending)
    ensures Outcome(stream, out, pending)
  {
    if left != stream {
      var t :| Discards(stream, t) && Behind(stream[t..], left);
      var e :| LineEnd(stream, e) && e < t;
    }
  }

  /** When the buffer is discarded, what is left is what was not yet read. */
  lemma {:induction false} DiscardMore(stream: Bytes, left: Bytes, head: Bytes, rest: Bytes)
    requires Behind(stream, left) && left == head + rest && Discards(left, |head|)
    ensures Behind(stream, rest)
    decreases |stream|
  {
    if left == stream {
      Cut(head, rest);
      assert Behind(stream[|head|..], rest);
    } else {
      var t :| Discards(stream, t) && Behind(stream[t..], left);
      DiscardMore(stream[t..], left, head, rest);
      assert Behind(stream[t..], rest);
    }
  }

  /** A complete first line: either it is the identification, or it is a preliminary line. */
  lemma LineFound(stream: Bytes, head: Bytes, rest: Bytes, e: int, line: Bytes)
    requires stream == head + rest && |head| <= BUFFER_SIZE && LineEnd(head, e) && line == Line(head, e)
    ensures if |line| >= 8 && head[..8] == PREFIX
            then Outcome(stream, Ok(line), head[e + 1..] + rest) && !Preliminary(stream)
            else Preliminary(stream) && Discards(stream, |head|)
  {
    FirstLine(stream, head, rest, e);
  }

  /** The first line end found in a prefix is that of the whole stream, and whether the line
      is an identification can be told from the prefix. */
  lemma FirstLine(stream: Bytes, head: Bytes, rest: Bytes, e: int)
    requires stream == head + rest && LineEnd(head, e)
    ensures LineEnd(stream, e) && Line(stream, e) == Line(head, e)
    ensures forall e' :: LineEnd(stream, e') ==> e' == e
    ensures stream[e + 1..] == head[e + 1..] + rest
    ensures PREFIX <= stream <==> |Line(head, e)| >= 8 && head[..8] == PREFIX
  {
    assert forall j :: 0 <= j <= e ==> stream[j] == head[j];
    forall e' | LineEnd(stream, e')
      ensures e' == e
    {
      assert stream[e] == LF && stream[e'] == LF;
    }
    if PREFIX <= stream {
      assert forall j :: 0 <= j < 8 ==> stream[j] == PREFIX[j];
      assert e >= 8;
      assert head[..8] == PREFIX;
      assert head[7] != CR;
    }
    if |head| >= 8 && head[..8] == PREFIX {
      assert stream[..8] == head[..8];
    }
  }
}
