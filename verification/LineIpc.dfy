// Newline-framed messages over local sockets: one server, any number of clients.
// Every receive, poll and accept may come in any order; the lines of a client do
// not depend on it.
module LineIpc {
  import opened Bytes

  const LF: byte := 10
  const CR: byte := 13

  type Text = seq<byte>

  // ----- Lines of a byte stream ------------------------------------------------------------

  /** A line loses one carriage return at its end. */
  function Strip(line: Text): (r: Text)
    ensures if line != [] && line[|line| - 1] == 13 then line == r + [13] else r == line
  {
    if line != [] && line[|line| - 1] == CR then line[..|line| - 1] else line
  }

  /** The lines completed by a stream, and what is left over, read byte by byte. */
  function Lines(data: Text): seq<Text> {
    if data == [] then []
    else
      var last := |data| - 1;
      if data[last] == LF then Lines(data[..last]) + [Strip(Rest(data[..last]))] else Lines(data[..last])
  }

  function Rest(data: Text): Text {
    if data == [] then []
    else
      var last := |data| - 1;
      if data[last] == LF then [] else Rest(data[..last]) + [data[last]]
  }

  /** Lines as they travel. */
  function Wire(lines: seq<Text>): Text {
    if lines == [] then [] else lines[0] + [LF] + Wire(lines[1..])
  }

  /** Reading on from the left-over part is reading the whole stream: where a stream
      is cut into pieces does not matter. */
  lemma {:induction false} LinesInTwoParts(a: Text, b: Text)
    ensures Lines(a + b) == Lines(a) + Lines(Rest(a) + b)
    ensures Rest(a + b) == Rest(Rest(a) + b)
    decreases |b|
  {
    if b == [] {
      assert a + b == a && Rest(a) + b == Rest(a);
      RestIsUnbroken(a);
      UnbrokenIsRest(Rest(a));
    } else {
      var last := |b| - 1;
      LinesInTwoParts(a, b[..last]);
      assert (a + b)[..|a + b| - 1] == a + b[..last];
      assert (Rest(a) + b)[..|Rest(a) + b| - 1] == Rest(a) + b[..last];
    }
  }

  lemma {:induction false} RestIsUnbroken(a: Text)
    ensures LF !in Rest(a)
  {
    if a != [] {
      RestIsUnbroken(a[..|a| - 1]);
    }
  }

  lemma {:induction false} UnbrokenIsRest(a: Text)
    requires LF !in a
    ensures Lines(a) == [] && Rest(a) == a
  {
    if a != [] {
      var last := |a| - 1;
      assert a[last] in a;
      forall b | b in a[..last] ensures b in a {
      }
      UnbrokenIsRest(a[..last]);
      assert a[..last] + [a[last]] == a;
    }
  }

  /** The first line of a stream ends at its first line feed. */
  lemma FirstLine(head: Text, tail: Text)
    requires LF !in head
    ensures Lines(head + [LF] + tail) == [Strip(head)] + Lines(tail)
    ensures Rest(head + [LF] + tail) == Rest(tail)
  {
    UnbrokenIsRest(head);
    assert (head + [LF])[..|head|] == head;
    LinesInTwoParts(head + [LF], tail);
    assert [] + tail == tail;
  }

  /** Lines and Rest are the only way to take a stream apart: whenever a stream is
      unbroken pieces, each closed by a line feed, and an unbroken end, these are they. */
  lemma {:induction false} ReadingIsUnique(pieces: seq<Text>, end: Text)
    requires forall i | 0 <= i < |pieces| :: LF !in pieces[i]
    requires LF !in end
    ensures Rest(Wire(pieces) + end) == end
    ensures |Lines(Wire(pieces) + end)| == |pieces|
    ensures forall i | 0 <= i < |pieces| :: Lines(Wire(pieces) + end)[i] == Strip(pieces[i])
  {
    if pieces == [] {
      assert Wire(pieces) + end == end;
      UnbrokenIsRest(end);
    } else {
      assert Wire(pieces) + end == pieces[0] + [LF] + (Wire(pieces[1..]) + end);
      FirstLine(pieces[0], Wire(pieces[1..]) + end);
      ReadingIsUnique(pieces[1..], end);
    }
  }

  /** Every stream can be taken apart that way. */
  lemma {:induction false} ReadingExists(data: Text) returns (pieces: seq<Text>)
    ensures forall i | 0 <= i < |pieces| :: LF !in pieces[i]
    ensures data == Wire(pieces) + Rest(data) && LF !in Rest(data)
  {
    pieces := [];
    RestIsUnbroken(data);
    if data != [] {
      var last := |data| - 1;
      pieces := ReadingExists(data[..last]);
      assert data == data[..last] + [data[last]];
      if data[last] == LF {
        WireOneMore(pieces, Rest(data[..last]));
        pieces := pieces + [Rest(data[..last])];
      }
    }
  }

  lemma {:induction false} WireOneMore(lines: seq<Text>, line: Text)
    ensures Wire(lines + [line]) == Wire(lines) + line + [LF]
  {
    if lines != [] {
      assert (lines + [line])[1..] == lines[1..] + [line];
      WireOneMore(lines[1..], line);
    }
  }

  // ----- Sending and reading back -------------------------------------------------------------

  /** What a line must be to arrive as it was sent. */
  predicate Clean(line: Text) {
    LF !in line && (line != [] ==> line[|line| - 1] != CR)
  }

  /** The lines read are the lines sent exactly when all of them are clean. */
  lemma {:induction false} SentLinesArrive(lines: seq<Text>)
    ensures Lines(Wire(lines)) == lines <==> forall i | 0 <= i < |lines| :: Clean(lines[i])
    ensures Rest(Wire(lines)) == []
  {
    hide Lines, Rest, Strip, Clean;
    if lines == [] {
      UnbrokenIsRest([]);
    } else {
      var first, others := lines[0], lines[1..];
      SentLinesArrive(others);
      assert Wire(lines) == first + [LF] + Wire(others);
      if LF !in first {
        FirstLine(first, Wire(others));
        CleanIsStripped(first);
        assert lines == [first] + others;
        SameList(Strip(first), Lines(Wire(others)), first, others);
        assert forall i | 0 < i < |lines| :: lines[i] == others[i - 1];
        assert forall i | 0 <= i < |others| :: others[i] == lines[i + 1];
      } else {
        LinesInTwoParts(first + [LF], Wire(others));
        BrokenLineCounts(first);
        assert [] + Wire(others) == Wire(others);
        AtLeastAsManyLines(others);
        CleanIsStripped(lines[0]);
      }
    }
  }

  lemma CleanIsStripped(line: Text)
    ensures Clean(line) <==> LF !in line && Strip(line) == line
  {
  }

  lemma SameList(x: Text, xs: seq<Text>, y: Text, ys: seq<Text>)
    ensures [x] + xs == [y] + ys <==> x == y && xs == ys
  {
    assert ([x] + xs)[0] == x && ([x] + xs)[1..] == xs;
    assert ([y] + ys)[0] == y && ([y] + ys)[1..] == ys;
  }

  lemma BrokenLineCounts(line: Text)
    requires LF in line
    ensures |Lines(line + [LF])| >= 2 && Rest(line + [LF]) == []
  {
    var k :| 0 <= k < |line| && line[k] == LF;
    LinesInTwoParts(line[..k + 1], line[k + 1..] + [LF]);
    assert line + [LF] == line[..k + 1] + (line[k + 1..] + [LF]);
    assert line[..k + 1][..k] == line[..k];
    var end := Rest(line[..k + 1]) + (line[k + 1..] + [LF]);
    assert end[|end| - 1] == LF;
  }

  lemma {:induction false} AtLeastAsManyLines(lines: seq<Text>)
    ensures |Lines(Wire(lines))| >= |lines|
  {
    if lines != [] {
      LinesInTwoParts(lines[0] + [LF], Wire(lines[1..]));
      assert (lines[0] + [LF])[..|lines[0]|] == lines[0];
      assert [] + Wire(lines[1..]) == Wire(lines[1..]);
      AtLeastAsManyLines(lines[1..]);
    }
  }

  /** Two streams read through one buffer, as a client that reconnects does, give the
      lines of each exactly when nothing was left over from the first, or nothing
      more is completed, or the left-over is a carriage return met by a line feed. */
  lemma JoinedStreams(a: Text, b: Text)
    ensures Lines(a + b) == Lines(a) + Lines(b) <==>
              Rest(a) == [] || LF !in b || (Rest(a) == [CR] && b[0] == LF)
  {
    hide Lines, Rest, Strip;
    LinesInTwoParts(a, b);
    RestIsUnbroken(a);
    var rest := Rest(a);
    if LF !in b {
      UnbrokenIsRest(b);
      UnbrokenIsRest(rest + b);
    } else {
      var head, tail := CutFirst(b);
      FirstLine(head, tail);
      FirstLine(rest + head, tail);
      assert rest + b == rest + head + [LF] + tail;
      SameAfter(Lines(a), Strip(rest + head), Strip(head), Lines(tail));
      GluedLine(rest, head);
    }
  }

  lemma SameAfter(before: seq<Text>, x: Text, y: Text, after: seq<Text>)
    ensures before + ([x] + after) == before + ([y] + after) <==> x == y
  {
    assert (before + ([x] + after))[|before|] == x;
    assert (before + ([y] + after))[|before|] == y;
  }

  lemma GluedLine(rest: Text, head: Text)
    ensures Strip(rest + head) == Strip(head) <==> rest == [] || (rest == [CR] && head == [])
  {
    if rest == [] {
      assert rest + head == head;
    } else if head == [] {
      assert rest + head == rest;
    } else {
      assert |Strip(rest + head)| > |Strip(head)|;
    }
  }

  lemma CutFirst(data: Text) returns (head: Text, tail: Text)
    requires LF in data
    ensures data == head + [LF] + tail && LF !in head && (data[0] == LF <==> head == [])
  {
    var k := 0;
    while data[k] != LF
      invariant 0 <= k < |data| && LF in data[k..] && LF !in data[..k]
      decreases |data| - k
    {
      k := k + 1;
    }
    head, tail := data[..k], data[k + 1..];
    assert k > 0 ==> data[0] in head;
  }

  /** drain_lines: takes the complete lines out of a buffer. */
  method DrainLines(data: Text) returns (lines: seq<Text>, buffer: Text)
    ensures lines == Lines(data) && buffer == Rest(data)
    ensures forall b <- buffer :: b != 10
  {
    hide Strip;
    buffer, lines := data, [];
    while true
      invariant Lines(data) == lines + Lines(buffer) && Rest(data) == Rest(buffer)
      decreases |buffer|
    {
      var newline := Find(buffer);
      if newline == |buffer| {
        UnbrokenIsRest(buffer);
        return;
      }
      var line := buffer[..newline];
      FirstLine(line, buffer[newline + 1..]);
      assert buffer == line + [LF] + buffer[newline + 1..];
      lines := lines + [Strip(line)];
      buffer := buffer[newline + 1..];
    }
  }

  /** The place of the first line feed, the length when there is none. */
  method Find(buffer: Text) returns (newline: nat)
    ensures newline <= |buffer| && LF !in buffer[..newline]
    ensures newline < |buffer| ==> buffer[newline] == LF
  {
    newline := 0;
    while newline < |buffer| && buffer[newline] != LF
      invariant newline <= |buffer| && LF !in buffer[..newline]
    {
      newline := newline + 1;
    }
  }

  // ----- Receiving ---------------------------------------------------------------------------

  /** What one poll finds on a socket: the pieces recv hands out, then perhaps the
      end of the stream. */
  datatype Arrival = Arrival(chunks: seq<Text>, eof: bool)

  const NOTHING := Arrival([], false)

  function ArrivalOf(arrivals: map<int, Arrival>, id: int): Arrival {
    if id in arrivals then arrivals[id] else NOTHING
  }

  /** The recv loop appends every piece. */
  method Receive(buffer: Text, arrival: Arrival) returns (filled: Text)
    ensures filled == buffer + Concat(arrival.chunks)
  {
    filled := buffer;
    for i := 0 to |arrival.chunks|
      invariant filled + Concat(arrival.chunks[i..]) == buffer + Concat(arrival.chunks)
    {
      assert arrival.chunks[i..][1..] == arrival.chunks[i + 1..];
      filled := filled + arrival.chunks[i];
    }
    assert arrival.chunks[|arrival.chunks|..] == [];
  }

  /** What the socket takes of a payload; a negative answer of send is nothing. */
  function OnWire(payload: Text, taken: int): (put: Text)
    requires taken <= |payload|
    ensures put <= payload && |put| == if taken < 0 then 0 else taken
  {
    if taken < 0 then [] else payload[..taken]
  }

  class Client {
    var connected: bool
    var buffer: Text
    /** Every byte received, and every line handed out, over all connections. */
    ghost var received: Text
    ghost var delivered: seq<Text>
    /** The bytes this connection's socket took, the lines handed to send_line, and
        whether send_line has answered true to all of them. */
    ghost var wire: Text
    ghost var sent: seq<Text>
    ghost var whole: bool

    constructor ()
      ensures Valid() && !connected && received == [] && delivered == []
    {
      connected, buffer, received, delivered := false, [], [], [];
      wire, sent, whole := [], [], true;
    }

    /** The buffer is the unfinished line; and while every send is answered with true,
        the wire carries exactly the lines. */
    ghost predicate Valid()
      reads this
    {
      buffer == Rest(received) && delivered == Lines(received) && (whole ==> wire == Wire(sent))
    }

    method Connect(accepted: bool) returns (ok: bool)
      requires Valid()
      modifies this`connected, this`wire, this`sent, this`whole
      ensures Valid() && ok == accepted == connected && wire == [] && sent == [] && whole
    {
      wire, sent, whole := [], [], true;
      connected := accepted;
      ok := accepted;
    }

    /** send_line; taken is what send answers. */
    method SendLine(line: Text, taken: int) returns (ok: bool)
      requires Valid() && taken <= |line| + 1
      modifies this`wire, this`sent, this`whole
      ensures Valid() && ok == (connected && taken == |line| + 1)
      ensures sent == old(sent) + [line] && whole == (old(whole) && ok)
      ensures wire == old(wire) + (if connected then OnWire(line + [10], taken) else [])
      // Sent in full so far, the lines arrive as they were sent exactly when they are clean.
      ensures whole ==> (Lines(wire) == sent <==> forall i | 0 <= i < |sent| :: Clean(sent[i]))
    {
      hide Lines, Rest, Clean;
      sent := sent + [line];
      ok := connected && taken == |line| + 1;
      whole := whole && ok;
      if connected {
        wire := wire + OnWire(line + [LF], taken);
      }
      WireOneMore(old(sent), line);
      SentLinesArrive(sent);
    }

    method Close()
      requires Valid()
      modifies this`connected
      ensures Valid() && !connected
    {
      connected := false;
    }

    /** poll_lines. The buffer outlives a connection: a line cut off by a disconnect is
        continued by the first bytes of the next connection. */
    method PollLines(arrival: Arrival) returns (lines: seq<Text>)
      requires Valid()
      modifies this`connected, this`buffer, this`received, this`delivered
      ensures Valid() && delivered == old(delivered) + lines
      ensures received == old(received) + (if old(connected) then Concat(arrival.chunks) else [])
      ensures connected == (old(connected) && !arrival.eof)
    {
      if !connected {
        return [];
      }
      var filled := Receive(buffer, arrival);
      LinesInTwoParts(received, Concat(arrival.chunks));
      if arrival.eof {
        connected := false;
      }
      lines, buffer := DrainLines(filled);
      received, delivered := received + Concat(arrival.chunks), delivered + lines;
    }
  }

  // ----- The server ----------------------------------------------------------------------------

  datatype ServerEvent = ServerEvent(clientId: int, line: Text)

  datatype ClientState = ClientState(id: int, buffer: Text)

  /** The lines of one client among the events. */
  function LinesOf(events: seq<ServerEvent>, id: int): seq<Text> {
    if events == [] then []
    else if events[0].clientId == id then [events[0].line] + LinesOf(events[1..], id)
    else LinesOf(events[1..], id)
  }

  lemma {:induction false} LinesOfAppend(a: seq<ServerEvent>, b: seq<ServerEvent>, id: int)
    ensures LinesOf(a + b, id) == LinesOf(a, id) + LinesOf(b, id)
  {
    if a == [] {
      assert a + b == b;
    } else {
      assert (a + b)[1..] == a[1..] + b;
      LinesOfAppend(a[1..], b, id);
    }
  }

  /** The events of one client's lines. */
  function Tagged(id: int, lines: seq<Text>): seq<ServerEvent> {
    seq(|lines|, i requires 0 <= i < |lines| => ServerEvent(id, lines[i]))
  }

  lemma {:induction false} LinesOfTagged(id: int, lines: seq<Text>, other: int)
    ensures LinesOf(Tagged(id, lines), other) == if other == id then lines else []
  {
    if lines != [] {
      assert Tagged(id, lines)[1..] == Tagged(id, lines[1..]);
      LinesOfTagged(id, lines[1..], other);
    }
  }

  function At(m: map<int, Text>, id: int): Text {
    if id in m then m[id] else []
  }

  function SentTo(sent: map<int, seq<Text>>, id: int): seq<Text> {
    if id in sent then sent[id] else []
  }

  /** While every send to a client is answered with true, its wire carries the lines. */
  ghost predicate AllCarried(wires: map<int, Text>, sent: map<int, seq<Text>>, broken: set<int>) {
    forall id :: id !in broken ==> At(wires, id) == Wire(SentTo(sent, id))
  }

  lemma OneMoreSent(wires: map<int, Text>, sent: map<int, seq<Text>>, broken: set<int>, id: int, line: Text,
                    bytes: Text)
    requires AllCarried(wires, sent, broken)
    ensures var nowWires, nowSent := wires[id := At(wires, id) + bytes], sent[id := SentTo(sent, id) + [line]];
      && AllCarried(nowWires, nowSent, broken + {id})
      && (bytes == line + [LF] ==> AllCarried(nowWires, nowSent, broken))
  {
    hide Wire;
    WireOneMore(SentTo(sent, id), line);
    assert At(wires, id) + (line + [LF]) == At(wires, id) + line + [LF];
  }

  lemma CarriedArrive(wires: map<int, Text>, sent: map<int, seq<Text>>, broken: set<int>, id: int)
    requires AllCarried(wires, sent, broken)
    ensures id !in broken ==>
      var lines := SentTo(sent, id);
      Lines(At(wires, id)) == lines <==> forall i | 0 <= i < |lines| :: Clean(lines[i])
  {
    SentLinesArrive(SentTo(sent, id));
  }

  function Ids(clients: seq<ClientState>): seq<int> {
    seq(|clients|, i requires 0 <= i < |clients| => clients[i].id)
  }

  /** From before to now, exactly the clients in done received what arrived for them. */
  ghost predicate Taken(before: map<int, Text>, now: map<int, Text>, arrivals: map<int, Arrival>, done: seq<int>) {
    forall id :: At(now, id) == At(before, id) + (if id in done then Concat(ArrivalOf(arrivals, id).chunks) else [])
  }

  lemma NothingTaken(before: map<int, Text>, arrivals: map<int, Arrival>)
    ensures Taken(before, before, arrivals, [])
  {
  }

  lemma OneMoreTaken(before: map<int, Text>, now: map<int, Text>, arrivals: map<int, Arrival>, done: seq<int>, id: int)
    requires Taken(before, now, arrivals, done) && id !in done
    ensures Taken(before, now[id := At(now, id) + Concat(ArrivalOf(arrivals, id).chunks)], arrivals, done + [id])
  {
    hide Concat;
    assert At(now, id) == At(before, id);
  }

  class Server {
    var listening: bool
    var nextClientId: int
    var clients: seq<ClientState>
    /** Every event handed out, and every byte received, client by client. */
    ghost var history: seq<ServerEvent>
    ghost var received: map<int, Text>
    /** Client by client: the bytes its socket took, the lines sent to it, and whether
        some send_line to it was answered with false. */
    ghost var wires: map<int, Text>
    ghost var sent: map<int, seq<Text>>
    ghost var broken: set<int>

    constructor ()
      ensures Valid() && !listening && nextClientId == 1 && clients == [] && history == [] && received == map[]
      ensures wires == map[] && sent == map[] && broken == {}
    {
      listening, nextClientId, clients, history, received := false, 1, [], [], map[];
      wires, sent, broken := map[], map[], {};
    }

    ghost predicate Numbered()
      reads this`clients, this`nextClientId, this`received
    {
      && nextClientId >= 1
      && (forall i | 0 <= i < |clients| :: 1 <= clients[i].id < nextClientId)
      && (forall i, j | 0 <= i < j < |clients| :: clients[i].id < clients[j].id)
      && (forall id | id in received :: 1 <= id < nextClientId)
    }

    ghost predicate Buffered()
      reads this`clients, this`received
    {
      forall i | 0 <= i < |clients| :: clients[i].buffer == Rest(At(received, clients[i].id))
    }

    /** Client numbers are never used twice; each buffer holds the unfinished line of
        its client, and every finished line was handed out, in order. */
    ghost predicate Valid()
      reads this
    {
      && Numbered() && Buffered() && AllCarried(wires, sent, broken)
      && (!listening ==> clients == [])
      && (forall id :: LinesOf(history, id) == Lines(At(received, id)))
    }

    ghost predicate Has(id: int)
      reads this`clients
    {
      id in Ids(clients)
    }

    method Close()
      requires Valid()
      modifies this`listening, this`clients
      ensures Valid() && !listening && clients == []
    {
      listening, clients := false, [];
    }

    method ListenOn(bound: bool) returns (ok: bool)
      requires Valid()
      modifies this`listening, this`clients
      ensures Valid() && ok == bound == listening && clients == []
    {
      Close();
      listening := bound;
      ok := bound;
    }

    /** The accept loop. */
    method AcceptAll(accepts: nat)
      requires Valid() && listening
      modifies this`clients, this`nextClientId
      ensures Valid() && nextClientId == old(nextClientId) + accepts
      ensures forall id :: Has(id) <==> old(Has(id)) || old(nextClientId) <= id < nextClientId
    {
      hide LinesOf, Lines, Rest;
      ghost var before := clients;
      assert Rest([]) == [] by {
        UnbrokenIsRest([]);
      }
      for n := 0 to accepts
        invariant listening && received == old(received) && history == old(history)
        invariant nextClientId == old(nextClientId) + n
        invariant Ids(clients) == Ids(before) + seq(n, i => old(nextClientId) + i)
        invariant Numbered() && Buffered()
      {
        assert Ids(clients + [ClientState(nextClientId, [])]) == Ids(clients) + [nextClientId];
        clients := clients + [ClientState(nextClientId, [])];
        nextClientId := nextClientId + 1;
      }
      forall id ensures Has(id) <==> old(Has(id)) || old(nextClientId) <= id < nextClientId {
        if old(nextClientId) <= id < nextClientId {
          assert Ids(clients)[|before| + (id - old(nextClientId))] == id;
        }
      }
    }

    /** One client's turn in the receive loop. */
    method Serve(i: nat, arrival: Arrival) returns (events: seq<ServerEvent>)
      requires Valid() && i < |clients|
      modifies this`clients, this`history, this`received
      ensures Valid() && history == old(history) + events
      ensures Ids(clients) == old(Ids(clients))
      ensures received == old(received[clients[i].id := At(received, clients[i].id) + Concat(arrival.chunks)])
    {
      hide LinesOf, Lines, Rest, Concat;
      var id := clients[i].id;
      ghost var heard := At(received, id);
      LinesInTwoParts(heard, Concat(arrival.chunks));
      var filled := Receive(clients[i].buffer, arrival);
      var lines, rest := DrainLines(filled);
      clients := clients[i := ClientState(id, rest)];
      events := Tagged(id, lines);
      received := received[id := heard + Concat(arrival.chunks)];
      forall other ensures LinesOf(history + events, other) == Lines(At(received, other)) {
        LinesOfAppend(history, events, other);
        LinesOfTagged(id, lines, other);
        assert LinesOf(history, other) == Lines(At(old(received), other));
      }
      history := history + events;
    }

    /** The receive loop: every client in turn; dead ones are only noted. */
    method ServeAll(arrivals: map<int, Arrival>) returns (events: seq<ServerEvent>, dead: set<int>)
      requires Valid()
      modifies this`clients, this`history, this`received
      ensures Valid() && history == old(history) + events
      ensures forall id :: Has(id) <==> old(Has(id))
      ensures forall id :: id in dead <==> Has(id) && ArrivalOf(arrivals, id).eof
      ensures Taken(old(received), received, arrivals, Ids(clients))
    {
      hide LinesOf, Lines, Rest, Concat, Taken, At, Numbered, Buffered;
      events, dead := [], {};
      ghost var ids := Ids(clients);
      NothingTaken(received, arrivals);
      for i := 0 to |clients|
        invariant listening == old(listening) && nextClientId == old(nextClientId)
        invariant Valid() && history == old(history) + events && Ids(clients) == ids
        invariant Taken(old(received), received, arrivals, ids[..i])
        invariant forall id :: id in dead <==> id in ids[..i] && ArrivalOf(arrivals, id).eof
      {
        IdsDiffer();
        var id := clients[i].id;
        assert ids[..i + 1] == ids[..i] + [id];
        var arrival := ArrivalOf(arrivals, id);
        OneMoreTaken(old(received), received, arrivals, ids[..i], id);
        var more := Serve(i, arrival);
        events := events + more;
        if arrival.eof {
          dead := dead + {id};
        }
      }
      assert ids[..|clients|] == ids;
    }

    lemma IdsDiffer()
      requires Numbered()
      ensures forall i | 0 <= i < |clients| :: clients[i].id == Ids(clients)[i] && clients[i].id !in Ids(clients)[..i]
    {
    }

    /** The clients whose stream has ended are dropped, after their lines were delivered. */
    method DropDead(dead: set<int>)
      requires Valid()
      modifies this`clients
      ensures Valid()
      ensures forall id :: Has(id) <==> old(Has(id)) && id !in dead
    {
      hide LinesOf, Lines, Rest;
      var kept: seq<ClientState> := [];
      ghost var before := Ids(clients);
      for i := 0 to |clients|
        invariant clients == old(clients) && |kept| <= i
        invariant forall k | 0 <= k < |kept| :: kept[k] in clients[..i] && kept[k].id !in dead
        invariant forall k, l | 0 <= k < l < |kept| :: kept[k].id < kept[l].id
        invariant forall id :: id in Ids(kept) <==> id in before[..i] && id !in dead
      {
        assert before[..i + 1] == before[..i] + [clients[i].id];
        if clients[i].id !in dead {
          assert Ids(kept + [clients[i]]) == Ids(kept) + [clients[i].id];
          kept := kept + [clients[i]];
        }
      }
      assert before[..|clients|] == before;
      clients := kept;
    }

    /** One poll. The order of its steps and the sizes of the pieces leave no trace. */
    method Poll(accepts: nat, arrivals: map<int, Arrival>) returns (events: seq<ServerEvent>)
      requires Valid()
      modifies this`clients, this`nextClientId, this`history, this`received
      ensures Valid() && listening == old(listening) && history == old(history) + events
      ensures nextClientId == old(nextClientId) + (if listening then accepts else 0)
      ensures forall id :: Has(id) <==> old(Takes(accepts, id)) && !ArrivalOf(arrivals, id).eof
      ensures forall id :: At(received, id)
                        == At(old(received), id)
                           + if old(Takes(accepts, id)) then Concat(ArrivalOf(arrivals, id).chunks) else []
    {
      hide LinesOf, Lines, Rest, Concat, Numbered, Buffered;
      if !listening {
        return [];
      }
      AcceptAll(accepts);
      var dead;
      events, dead := ServeAll(arrivals);
      DropDead(dead);
    }

    /** send_line to one client; taken is what send answers. */
    method SendLine(id: int, line: Text, taken: int) returns (ok: bool)
      requires Valid() && taken <= |line| + 1
      modifies this`wires, this`sent, this`broken
      ensures Valid() && ok == (Has(id) && taken == |line| + 1)
      ensures sent == old(sent)[id := SentTo(old(sent), id) + [line]]
      ensures wires == old(wires)[id := At(old(wires), id) + (if Has(id) then OnWire(line + [10], taken) else [])]
      ensures broken == if ok then old(broken) else old(broken) + {id}
      // What the client reads: its lines, exactly when they are clean, until a send fails.
      ensures id !in broken ==>
        var lines := SentTo(sent, id);
        Lines(At(wires, id)) == lines <==> forall i | 0 <= i < |lines| :: Clean(lines[i])
    {
      hide LinesOf, Lines, Rest, Clean, Numbered, Buffered, AllCarried, Wire, At, SentTo;
      var found := FindClient(id);
      ok := found && taken == |line| + 1;
      ghost var bytes := if Has(id) then OnWire(line + [LF], taken) else [];
      OneMoreSent(wires, sent, broken, id, line, bytes);
      wires, sent := wires[id := At(wires, id) + bytes], sent[id := SentTo(sent, id) + [line]];
      if !ok {
        broken := broken + {id};
      }
      CarriedArrive(wires, sent, broken, id);
    }

    /** find_if over the clients. */
    method FindClient(id: int) returns (found: bool)
      ensures found <==> Has(id)
    {
      for i := 0 to |clients|
        invariant id !in Ids(clients)[..i]
      {
        if clients[i].id == id {
          assert Ids(clients)[i] == id;
          return true;
        }
      }
      assert Ids(clients)[..|clients|] == Ids(clients);
      return false;
    }

    /** Does the poll with these accepts serve this client? */
    ghost predicate Takes(accepts: nat, id: int)
      reads this`listening, this`clients, this`nextClientId
    {
      listening && (Has(id) || nextClientId <= id < nextClientId + accepts)
    }
  }

  // ----- Whole runs ------------------------------------------------------------------------------

  datatype Step =
    | Listen(bound: bool)
    | Shut
    | Poll(accepts: nat, arrivals: map<int, Arrival>)

  function Listening(steps: seq<Step>): bool {
    if steps == [] then false
    else
      match steps[|steps| - 1]
      case Listen(bound) => bound
      case Shut => false
      case Poll(_, _) => Listening(steps[..|steps| - 1])
  }

  /** Connections accepted so far. */
  function Accepted(steps: seq<Step>): nat {
    if steps == [] then 0
    else
      var before := steps[..|steps| - 1];
      match steps[|steps| - 1]
      case Poll(accepts, _) => Accepted(before) + (if Listening(before) then accepts else 0)
      case _ => Accepted(before)
  }

  /** Is client id served by the poll that follows these steps? */
  predicate Served(steps: seq<Step>, accepts: nat, id: int)
    decreases |steps|, 1
  {
    Listening(steps) && (Open(steps, id) || Accepted(steps) < id <= Accepted(steps) + accepts)
  }

  /** Is client id connected after these steps? */
  predicate Open(steps: seq<Step>, id: int)
    decreases |steps|, 0
  {
    steps != [] &&
    match steps[|steps| - 1]
    case Listen(_) => false
    case Shut => false
    case Poll(accepts, arrivals) => Served(steps[..|steps| - 1], accepts, id) && !ArrivalOf(arrivals, id).eof
  }

  /** Every byte that reaches client id's socket while it is connected. */
  function Heard(steps: seq<Step>, id: int): Text {
    if steps == [] then []
    else
      var before := steps[..|steps| - 1];
      match steps[|steps| - 1]
      case Poll(accepts, arrivals) =>
        Heard(before, id) + (if Served(before, accepts, id) then Concat(ArrivalOf(arrivals, id).chunks) else [])
      case _ => Heard(before, id)
  }

  lemma StepsOneMore(steps: seq<Step>, n: nat)
    requires n < |steps|
    ensures steps[..n + 1][|steps[..n + 1]| - 1] == steps[n] && steps[..n + 1][..|steps[..n + 1]| - 1] == steps[..n]
  {
  }

  /** Is the server where these steps lead? */
  ghost predicate Follows(server: Server, steps: seq<Step>)
    reads server
  {
    && server.Valid()
    && server.listening == Listening(steps) && server.nextClientId == 1 + Accepted(steps)
    && (forall id :: server.Has(id) <==> Open(steps, id))
    && (forall id :: At(server.received, id) == Heard(steps, id))
  }

  /** One step of a run. */
  method Perform(server: Server, steps: seq<Step>, n: nat) returns (events: seq<ServerEvent>)
    requires n < |steps| && Follows(server, steps[..n])
    modifies server
    ensures Follows(server, steps[..n + 1]) && server.history == old(server.history) + events
  {
    hide LinesOf, Lines, Rest, Concat, At;
    StepsOneMore(steps, n);
    events := [];
    match steps[n]
    case Listen(bound) =>
      var _ := server.ListenOn(bound);
    case Shut =>
      server.Close();
    case Poll(accepts, arrivals) =>
      assert forall id :: server.Takes(accepts, id) <==> Served(steps[..n], accepts, id);
      events := server.Poll(accepts, arrivals);
  }

  /** In every run the events of a client are the lines of its bytes. */
  method RunServer(steps: seq<Step>) returns (events: seq<ServerEvent>)
    ensures forall id :: LinesOf(events, id) == Lines(Heard(steps, id))
  {
    hide LinesOf, Lines, Rest, Concat, At;
    var server := new Server();
    events := [];
    assert Follows(server, []) by {
      NothingHeard();
    }
    for n := 0 to |steps|
      invariant fresh(server) && Follows(server, steps[..n]) && server.history == events
    {
      var more := Perform(server, steps, n);
      events := events + more;
    }
    assert steps[..|steps|] == steps;
  }

  lemma NothingHeard()
    ensures forall id :: At(map[], id) == []
  {
  }
}
