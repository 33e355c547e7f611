// src/server/Main.cpp: the life of a Server object from its construction to its destructor.  What is proved of runs
// of the state machine is thereby proved of the class.

module Lifetime {
  import opened Bytes
  import opened Protocol
  import opened Chat
  import opened Sockets
  import opened ServerSpec
  import opened ServerClass
  import opened Invariants
  import opened Messaging
  import opened RoomSafety
  import opened Passes

  lemma {:induction false} AcceptsConcat(a: seq<Event>, b: seq<Event>)
    ensures Accepts(a + b) == Accepts(a) + Accepts(b)
  {
    var all := a + b;
    if |b| == 0 {
      assert all == a;
    } else {
      AcceptsConcat(a, b[..|b| - 1]);
      assert all[..|all| - 1] == a + b[..|b| - 1] && all[|all| - 1] == b[|b| - 1];
    }
  }

  lemma {:induction false} NoneConnecting(events: seq<Event>)
    requires forall e <- events :: !e.Connecting?
    ensures Accepts(events) == 0
  {
    if |events| > 0 { NoneConnecting(events[..|events| - 1]); }
  }

  lemma {:induction false} PassAccepts(closing: bool, i: nat, inputs: seq<Input>)
    ensures forall e <- PassEvents(closing, i, inputs) :: !e.Connecting?
    decreases |inputs|
  {
    if |inputs| > 0 { PassAccepts(closing, Next(closing, i, inputs[0]), inputs[1..]); }
  }

  lemma PartsAccept(arrival: Option<Arrival>, pass: seq<Event>, closing: seq<Event>)
    requires forall e <- pass :: !e.Connecting?
    requires forall e <- closing :: !e.Connecting?
    ensures Accepts(ArrivalEvents(arrival) + pass + closing) <= 1
  {
    AcceptsConcat(ArrivalEvents(arrival) + pass, closing);
    AcceptsConcat(ArrivalEvents(arrival), pass);
    NoneConnecting(pass);
    NoneConnecting(closing);
  }

  lemma RoundAccepts(s: State, round: Round)
    ensures Accepts(RoundEvents(s, round)) <= 1
  {
    var arrived := Execute(s, ArrivalEvents(round.arrival));
    var closing, inputs := arrived.status == Closing, PassInputs(arrived, round.inputs);
    var passed := Execute(arrived, PassEvents(closing, 0, inputs));
    PassAccepts(closing, 0, inputs);
    PartsAccept(round.arrival, PassEvents(closing, 0, inputs), ClosingEvents(passed, round.closingRequested));
  }

  /** At most one connection is accepted in each round of the main loop. */
  lemma {:induction false} ServeAccepts(s: State, rounds: seq<Round>)
    ensures Accepts(ServeEvents(s, rounds)) <= |rounds|
    decreases |rounds|
  {
    if |rounds| > 0 && s.status != Closed && !s.terminated {
      var events := RoundEvents(s, rounds[0]);
      RoundAccepts(s, rounds[0]);
      ServeAccepts(Execute(s, events), rounds[1..]);
      AcceptsConcat(events, ServeEvents(Execute(s, events), rounds[1..]));
    }
  }

  // ------------------------------------------------ rounds that lead to an uncaught exception

  /** How many clients a pass finds when there were `n` before the round. */
  function Present(n: nat, arrival: Option<Arrival>): nat {
    n + if arrival.Some? && arrival.value.handshake.Accepted? then 1 else 0
  }

  /** How many clients stay. */
  function Staying(inputs: seq<Input>): nat {
    if |inputs| == 0 then 0 else (if inputs[0].ReadFailed? then 0 else 1) + Staying(inputs[1..])
  }

  /** What the pass of a round finds at its clients. */
  function Found(n: nat, round: Round): seq<Input> {
    seq(Present(n, round.arrival), round.inputs)
  }

  /** With `n` clients at the beginning, some client sends a malformed packet before the server is asked to close. */
  ghost predicate Fatal(n: nat, rounds: seq<Round>)
    decreases |rounds|
  {
    |rounds| > 0 &&
    (Poisoned(Found(n, rounds[0]))
     || (!rounds[0].closingRequested && Fatal(Staying(Found(n, rounds[0])), rounds[1..])))
  }

  lemma {:induction false} SurvivorsStay(ids: seq<uint64>, inputs: seq<Input>)
    requires |ids| == |inputs|
    ensures |Survivors(ids, inputs)| == Staying(inputs)
  {
    if |ids| > 0 { SurvivorsStay(ids[1..], inputs[1..]); }
  }

  lemma ArrivalPresent(s: State, arrival: Option<Arrival>)
    requires !s.terminated
    ensures var s' := AfterArrival(s, arrival);
            !s'.terminated && s'.status == s.status && |s'.clients| == Present(|s.clients|, arrival)
  {
  }

  lemma RoundDies(s: State, round: Round)
    requires !s.terminated && s.status != Closing
    ensures var s', found := Execute(s, RoundEvents(s, round)), Found(|s.clients|, round);
            && (s'.terminated <==> Poisoned(found))
            && (!s'.terminated && round.closingRequested ==> s'.status == Closed)
            && (!s'.terminated && !round.closingRequested ==> s'.status == s.status && |s'.clients| == Staying(found))
  {
    var arrived := AfterArrival(s, round.arrival);
    var found := PassInputs(arrived, round.inputs);
    RoundSteps(s, round);
    ArrivalPresent(s, round.arrival);
    assert found == Found(|s.clients|, round);
    PassDies(arrived, 0, found);
    PassResult(arrived, found);
    SurvivorsStay(Ids(arrived.clients), found);
  }

  /** The main loop ends by an uncaught exception if and only if some client sends a malformed packet while the server
      is open. */
  lemma {:induction false} ServeDies(s: State, rounds: seq<Round>)
    requires !s.terminated && s.status != Closing && s.status != Closed
    ensures Execute(s, ServeEvents(s, rounds)).terminated <==> Fatal(|s.clients|, rounds)
    decreases |rounds|
  {
    if |rounds| > 0 {
      var events := RoundEvents(s, rounds[0]);
      var s' := Execute(s, events);
      RoundDies(s, rounds[0]);
      ExecuteConcat(s, events, ServeEvents(s', rounds[1..]));
      if !s'.terminated && !rounds[0].closingRequested {
        ServeDies(s', rounds[1..]);
      }
    }
  }

  // ------------------------------------------------ from construction to destruction

  /** The server dies of an exception if and only if some client sends a malformed packet while it is open.  Otherwise
      it has, in the end, freed every SSL handle it created exactly once and no other, and holds no client any more.
      Whatever its end, in fewer than 2^64 rounds it has answered no SAY with ERR_INVALID_ROOM, and the rooms that were
      loaded are as they were. */
  method RunServer(rooms: Rooms, sendHello: bool, masterSocket: Bytes, rounds: seq<Round>) returns (server: Server)
    requires |masterSocket| == 4
    ensures fresh(server) && server.Valid()
    ensures server.terminated <==> Fatal(0, rounds)
    ensures !Fatal(0, rounds) ==>
              server.clients.Contents() == [] &&
              forall h: nat :: FreedOnce(server.clients.ledger, h)
    ensures forall r <- rooms :: r in server.chat.rooms && server.chat.rooms[r] == rooms[r]
    ensures |rounds| < TWO_64 ==> forall n <- server.sent :: n.packet != Op(SMSG_SAY_ERR) + [ERR_INVALID_ROOM]
  {
    server := new Server();
    server.SetSendHelloMessagesToNewClients(sendHello);
    server.InitSocket(masterSocket);
    server.InitEntities(rooms);
    ghost var memory: Memory := server.buffer[..];
    ghost var start := server.Abs();
    assert rooms + map[] == rooms;
    assert start == Initial(rooms, memory, sendHello);
    server.Serve(rounds);
    ghost var events := ServeEvents(start, rounds);
    ghost var end := server.Abs();
    ServeDies(start, rounds);
    forall r <- rooms ensures r in end.rooms && end.rooms[r] == rooms[r] {
      RoomsKept(start, events, r);
    }
    if |rounds| < TWO_64 {
      ServeAccepts(start, rounds);
      NeverInvalidRoom(rooms, memory, sendHello, events);
    }
    if !server.terminated {
      server.Destroy();
      forall h: nat ensures FreedOnce(Shutdown(end).ledger, h) {
        EveryHandleFreedOnce(rooms, memory, sendHello, events, h);
      }
    }
  }
}
