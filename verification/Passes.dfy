// One pass of ProcessRequests over the clients, erasing while iterating, and the packets that end the process by
// an uncaught exception.

module Passes {
  import opened Bytes
  import opened Numbers
  import opened Protocol
  import opened Sockets
  import opened ServerSpec
  import opened Invariants

  // ------------------------------------------------ packets that lead to an uncaught exception

  /** An addition request in which some complete records are followed by a byte that is no number type. */
  ghost predicate Malformed(data: Bytes) {
    |data| >= 6 && OpOf(data) == CMSG_ADDITION_REQUEST && exists ns :: UnknownAfter(data, 2, |data|, ns)
  }

  /** Such packets exist. */
  lemma MalformedPacket()
    ensures Malformed([0, 2, 10, 0, 0, 0])
  {
    var data: Bytes := [0, 2, 10, 0, 0, 0];
    assert UnknownAfter(data, 2, |data|, []);
  }

  lemma MalformedInMemory(memory: Memory, data: Packet, ns: seq<Number>)
    requires |data| >= 2
    ensures UnknownAfter(Overwrite(memory, data), 2, |data|, ns) <==> UnknownAfter(data, 2, |data|, ns)
  {
    var m, at := Overwrite(memory, data), 2 + |Encode(ns)|;
    if at < |data| {
      assert m[2..at] == data[2..at];
    }
  }

  /** The addition loop throws on the packet if and only if it is malformed. */
  lemma AddThrows(memory: Memory, data: Packet)
    requires |data| >= 6 && OpOf(data) == CMSG_ADDITION_REQUEST
    ensures ReadAll(Overwrite(memory, data), 2, |data|).None? <==> Malformed(data)
  {
    FailsIff(Overwrite(memory, data), 2, |data|);
    forall ns ensures UnknownAfter(Overwrite(memory, data), 2, |data|, ns) <==> UnknownAfter(data, 2, |data|, ns) {
      MalformedInMemory(memory, data, ns);
    }
  }

  lemma OtherRequestsSurvive(s: State, i: nat, size: nat, texts: Texts)
    requires i < |s.clients| && 2 <= size <= BUFFER_SIZE
    requires !(OpOf(s.memory[..2]) == CMSG_ADDITION_REQUEST && size >= 6)
    ensures Dispatch(s, i, size, texts).terminated == s.terminated
  {
  }

  /** A received packet ends the process by an uncaught exception if and only if it is malformed. */
  lemma ReceiveDies(s: State, i: nat, data: Packet, texts: Texts)
    requires i < |s.clients| && !s.terminated
    ensures Receive(s, i, data, texts).terminated <==> Malformed(data)
  {
    var s1 := s.(memory := Overwrite(s.memory, data));
    if |data| >= 2 {
      OverwriteOp(s.memory, data);
      if OpOf(data) == CMSG_ADDITION_REQUEST && |data| >= 6 {
        AddThrows(s.memory, data);
      } else {
        OtherRequestsSurvive(s1, i, |data|, texts);
      }
    }
  }

  /** The input brings a packet that leads to an uncaught exception. */
  ghost predicate IsPoison(input: Input) {
    input.Ready? && Malformed(input.data)
  }

  ghost predicate Poisoned(inputs: seq<Input>) {
    exists k :: 0 <= k < |inputs| && IsPoison(inputs[k])
  }

  /** How many inputs the pass gets to: all of them, or those up to the first malformed packet. */
  ghost function Reached(inputs: seq<Input>): (n: nat)
    ensures n <= |inputs|
    ensures !Poisoned(inputs) ==> n == |inputs|
    ensures Poisoned(inputs) ==> n > 0 && IsPoison(inputs[n - 1])
    ensures forall k :: 0 <= k < n - 1 ==> !IsPoison(inputs[k])
  {
    if |inputs| == 0 then 0
    else if IsPoison(inputs[0]) then 1
    else
      assert Poisoned(inputs) ==> Poisoned(inputs[1..]) by {
        if Poisoned(inputs) {
          var k :| 0 <= k < |inputs| && IsPoison(inputs[k]);
          assert inputs[1..][k - 1] == inputs[k];
        }
      }
      1 + Reached(inputs[1..])
  }

  // ------------------------------------------------ what a pass does

  function Ids(clients: seq<ClientSocket>): (ids: seq<uint64>)
    ensures |ids| == |clients|
  {
    seq(|clients|, k requires 0 <= k < |clients| => clients[k].clientID)
  }

  /** Those whose read did not fail, in order. */
  function Survivors(ids: seq<uint64>, inputs: seq<Input>): seq<uint64>
    requires |ids| == |inputs|
  {
    if |ids| == 0 then []
    else (if inputs[0].ReadFailed? then [] else [ids[0]]) + Survivors(ids[1..], inputs[1..])
  }

  /** Those that were ready and could be read, with what they sent, in order. */
  function ReadyOnes(ids: seq<uint64>, inputs: seq<Input>): seq<(uint64, Bytes)>
    requires |ids| == |inputs|
  {
    if |ids| == 0 then []
    else
      (if inputs[0].Ready? then [(ids[0], inputs[0].data)] else []) + ReadyOnes(ids[1..], inputs[1..])
  }

  /** The requests handled during a run: whose, and what. */
  function Handled(s: State, events: seq<Event>): seq<(uint64, Bytes)>
    decreases |events|
  {
    if |events| == 0 then []
    else
      var e := events[0];
      (if Enabled(s, e) && e.Receiving? then [(s.clients[e.i].clientID, e.data)] else [])
      + Handled(Step(s, e), events[1..])
  }

  lemma DropIds(s: State, i: nat, address: Option<Address>)
    requires i < |s.clients|
    ensures Ids(Drop(s, i, address).clients) == RemoveAt(Ids(s.clients), i)
  {
  }

  lemma ReceiveIds(s: State, i: nat, data: Packet, texts: Texts)
    requires i < |s.clients|
    ensures Ids(Receive(s, i, data, texts).clients) == Ids(s.clients) && Receive(s, i, data, texts).status == s.status
  {
    ReceiveFrame(s, i, data, texts);
    var s' := Receive(s, i, data, texts);
    assert forall k :: 0 <= k < |s.clients| ==> s'.clients[k].clientID == s.clients[k].clientID;
  }

  lemma TurnFrame(s: State, closing: bool, i: nat, input: Input)
    requires !s.terminated && closing == (s.status == Closing) && i < |s.clients|
    ensures var s' := AfterTurn(s, Turn(closing, i, input));
            && s'.status == s.status
            && (s'.terminated <==> !closing && IsPoison(input))
            && Ids(s'.clients) == if closing || input.ReadFailed? then RemoveAt(Ids(s.clients), i) else Ids(s.clients)
  {
    if closing || input.ReadFailed? {
      DropIds(s, i, if closing then None else input.address);
    } else if input.Ready? {
      ReceiveIds(s, i, input.data, input.texts);
      ReceiveDies(s, i, input.data, input.texts);
    }
  }

  lemma HandledStep(s: State, turn: Option<Event>, rest: seq<Event>)
    ensures Handled(s, (if turn.Some? then [turn.value] else []) + rest)
         == (if turn.Some? && Enabled(s, turn.value) && turn.value.Receiving?
             then [(s.clients[turn.value.i].clientID, turn.value.data)] else []) + Handled(AfterTurn(s, turn), rest)
  {
    if turn.Some? {
      assert ([turn.value] + rest)[1..] == rest;
    } else {
      assert [] + rest == rest;
    }
  }

  lemma {:induction false} HandledTerminated(s: State, events: seq<Event>)
    requires s.terminated
    ensures Handled(s, events) == []
    decreases |events|
  {
    if |events| > 0 { HandledTerminated(s, events[1..]); }
  }

  /** Who is left, of the clients with the given ids, when the inputs are used up or one has ended the process. */
  ghost function Left(ids: seq<uint64>, inputs: seq<Input>): seq<uint64>
    requires |ids| == |inputs|
  {
    if |ids| == 0 then []
    else
      (if inputs[0].ReadFailed? then [] else [ids[0]])
      + if IsPoison(inputs[0]) then ids[1..] else Left(ids[1..], inputs[1..])
  }

  /** Who has been handled by then, and with what. */
  ghost function Served(ids: seq<uint64>, inputs: seq<Input>): seq<(uint64, Bytes)>
    requires |ids| == |inputs|
  {
    if |ids| == 0 then []
    else
      (if inputs[0].Ready? then [(ids[0], inputs[0].data)] else [])
      + if IsPoison(inputs[0]) then [] else Served(ids[1..], inputs[1..])
  }

  lemma TakeFirst<T>(s: seq<T>, n: nat)
    requires 0 < n <= |s|
    ensures s[..n][0] == s[0] && s[..n][1..] == s[1..][..n - 1] && s[n..] == s[1..][n - 1..]
  {
  }

  lemma {:induction false} LeftReached(ids: seq<uint64>, inputs: seq<Input>)
    requires |ids| == |inputs|
    ensures var n := Reached(inputs); Left(ids, inputs) == Survivors(ids[..n], inputs[..n]) + ids[n..]
  {
    if |ids| > 0 {
      var n := Reached(inputs);
      TakeFirst(ids, n);
      TakeFirst(inputs, n);
      var kept := if inputs[0].ReadFailed? then [] else [ids[0]];
      if IsPoison(inputs[0]) {
        assert Survivors(ids[..n], inputs[..n]) == kept + Survivors([], []);
      } else {
        LeftReached(ids[1..], inputs[1..]);
        Associative(kept, Survivors(ids[1..][..n - 1], inputs[1..][..n - 1]), ids[n..]);
      }
    }
  }

  lemma {:induction false} ServedReached(ids: seq<uint64>, inputs: seq<Input>)
    requires |ids| == |inputs|
    ensures var n := Reached(inputs); Served(ids, inputs) == ReadyOnes(ids[..n], inputs[..n])
  {
    if |ids| > 0 {
      var n := Reached(inputs);
      TakeFirst(ids, n);
      TakeFirst(inputs, n);
      var first := if inputs[0].Ready? then [(ids[0], inputs[0].data)] else [];
      if IsPoison(inputs[0]) {
        assert ReadyOnes(ids[..n], inputs[..n]) == first + ReadyOnes([], []);
      } else {
        ServedReached(ids[1..], inputs[1..]);
        assert ReadyOnes(ids[..n], inputs[..n]) == first + ReadyOnes(ids[1..][..n - 1], inputs[1..][..n - 1]);
      }
    }
  }

  lemma PoisonedStep(inputs: seq<Input>)
    requires |inputs| > 0
    ensures Poisoned(inputs) <==> IsPoison(inputs[0]) || Poisoned(inputs[1..])
  {
    if Poisoned(inputs[1..]) {
      var k :| 0 <= k < |inputs[1..]| && IsPoison(inputs[1..][k]);
      assert IsPoison(inputs[k + 1]);
    }
    if Poisoned(inputs) {
      var k :| 0 <= k < |inputs| && IsPoison(inputs[k]);
      assert k > 0 ==> IsPoison(inputs[1..][k - 1]);
    }
  }

  /** A pass at position `i` with inputs left: who is there after the next turn, and at which position it goes on. */
  ghost predicate TurnIds(before: seq<uint64>, after: seq<uint64>, i: nat, input: Input)
    requires i < |before|
  {
    var kept := if input.ReadFailed? then [] else [before[i]];
    after == before[..i] + kept + before[i + 1..]
  }

  lemma OneTurn(s: State, i: nat, inputs: seq<Input>)
    requires s.status != Closing && i + |inputs| == |s.clients| && !s.terminated && |inputs| > 0
    ensures var s', next := AfterTurn(s, Turn(false, i, inputs[0])), Next(false, i, inputs[0]);
            && s'.status == s.status && (s'.terminated <==> IsPoison(inputs[0]))
            && next + |inputs| - 1 == |s'.clients| && TurnIds(Ids(s.clients), Ids(s'.clients), i, inputs[0])
  {
    TurnFrame(s, false, i, inputs[0]);
  }

  /** A pass that has reached position `i` ends by an uncaught exception if and only if a malformed packet is still to
      come. */
  lemma {:induction false} PassDies(s: State, i: nat, inputs: seq<Input>)
    requires s.status != Closing && i + |inputs| == |s.clients| && !s.terminated
    ensures var s' := Execute(s, PassEvents(false, i, inputs));
            s'.status == s.status && (s'.terminated <==> Poisoned(inputs))
    decreases |inputs|
  {
    if |inputs| > 0 {
      var s', next := AfterTurn(s, Turn(false, i, inputs[0])), Next(false, i, inputs[0]);
      PassStep(s, false, i, inputs);
      OneTurn(s, i, inputs);
      PoisonedStep(inputs);
      if s'.terminated {
        ExecuteTerminated(s', PassEvents(false, next, inputs[1..]));
      } else {
        PassDies(s', next, inputs[1..]);
      }
    }
  }

  /** Whom it leaves. */
  lemma {:induction false} PassLeaves(s: State, i: nat, inputs: seq<Input>)
    requires s.status != Closing && i + |inputs| == |s.clients| && !s.terminated
    ensures var ids := Ids(s.clients);
            Ids(Execute(s, PassEvents(false, i, inputs)).clients) == ids[..i] + Left(ids[i..], inputs)
    decreases |inputs|
  {
    var ids := Ids(s.clients);
    if |inputs| == 0 {
      assert ids[..i] + [] == ids;
    } else {
      var s', next := AfterTurn(s, Turn(false, i, inputs[0])), Next(false, i, inputs[0]);
      PassStep(s, false, i, inputs);
      OneTurn(s, i, inputs);
      if s'.terminated {
        ExecuteTerminated(s', PassEvents(false, next, inputs[1..]));
      } else {
        PassLeaves(s', next, inputs[1..]);
      }
      LeftAfterTurn(ids, Ids(s'.clients), i, next, inputs);
    }
  }

  lemma LeftAfterTurn(before: seq<uint64>, after: seq<uint64>, i: nat, next: nat, inputs: seq<Input>)
    requires i < |before| && i + |inputs| == |before| && next == Next(false, i, inputs[0])
    requires TurnIds(before, after, i, inputs[0])
    ensures next + |inputs| - 1 == |after|
    ensures before[..i] + Left(before[i..], inputs)
         == if IsPoison(inputs[0]) then after else after[..next] + Left(after[next..], inputs[1..])
  {
    var kept := if inputs[0].ReadFailed? then [] else [before[i]];
    assert before[i..][1..] == before[i + 1..] == after[next..];
    assert after[..next] == before[..i] + kept;
    Associative(before[..i], kept, if IsPoison(inputs[0]) then before[i + 1..] else Left(before[i + 1..], inputs[1..]));
  }

  /** Whom it serves. */
  lemma {:induction false} PassServes(s: State, i: nat, inputs: seq<Input>)
    requires s.status != Closing && i + |inputs| == |s.clients| && !s.terminated
    ensures Handled(s, PassEvents(false, i, inputs)) == Served(Ids(s.clients)[i..], inputs)
    decreases |inputs|
  {
    if |inputs| > 0 {
      var ids := Ids(s.clients);
      var s', next := AfterTurn(s, Turn(false, i, inputs[0])), Next(false, i, inputs[0]);
      OneTurn(s, i, inputs);
      HandledStep(s, Turn(false, i, inputs[0]), PassEvents(false, next, inputs[1..]));
      if s'.terminated {
        HandledTerminated(s', PassEvents(false, next, inputs[1..]));
      } else {
        PassServes(s', next, inputs[1..]);
      }
      assert ids[i..][1..] == ids[i + 1..] == Ids(s'.clients)[next..];
    }
  }

  lemma PassOutcome(s: State, inputs: seq<Input>)
    requires s.status != Closing && |inputs| == |s.clients| && !s.terminated
    ensures Pass(s, inputs).terminated <==> Poisoned(inputs)
    ensures Ids(Pass(s, inputs).clients) == Left(Ids(s.clients), inputs)
    ensures Handled(s, PassEvents(false, 0, inputs)) == Served(Ids(s.clients), inputs)
  {
    var ids := Ids(s.clients);
    PassDies(s, 0, inputs);
    PassLeaves(s, 0, inputs);
    PassServes(s, 0, inputs);
    assert ids[0..] == ids && ids[..0] == [];
  }

  lemma AllReached(ids: seq<uint64>, inputs: seq<Input>)
    requires |ids| == |inputs| && !Poisoned(inputs)
    ensures Left(ids, inputs) == Survivors(ids, inputs) && Served(ids, inputs) == ReadyOnes(ids, inputs)
  {
    LeftReached(ids, inputs);
    ServedReached(ids, inputs);
    assert ids[..|ids|] == ids && inputs[..|ids|] == inputs && ids[|ids|..] == [];
  }

  /** Erase while iterating.  An uncaught exception ends the process during a pass if and only if some
      ready client sends a malformed packet.
      Unless one does, the pass removes exactly the clients whose read failed, keeps the others in order, and handles
      each ready one of them exactly once, in order; if one does, this holds of the clients up to the first such, and
      the others are as they were. */
  lemma PassResult(s: State, inputs: seq<Input>)
    requires s.status != Closing && |inputs| == |s.clients| && !s.terminated
    ensures Pass(s, inputs).terminated <==> Poisoned(inputs)
    ensures var ids, n := Ids(s.clients), Reached(inputs);
            && Ids(Pass(s, inputs).clients) == Survivors(ids[..n], inputs[..n]) + ids[n..]
            && Handled(s, PassEvents(false, 0, inputs)) == ReadyOnes(ids[..n], inputs[..n])
    ensures !Poisoned(inputs) ==>
              && Ids(Pass(s, inputs).clients) == Survivors(Ids(s.clients), inputs)
              && Handled(s, PassEvents(false, 0, inputs)) == ReadyOnes(Ids(s.clients), inputs)
  {
    PassOutcome(s, inputs);
    LeftReached(Ids(s.clients), inputs);
    ServedReached(Ids(s.clients), inputs);
    if !Poisoned(inputs) { AllReached(Ids(s.clients), inputs); }
  }

  /** When the server is closing a pass empties the vector, whatever is ready, and throws nothing. */
  lemma {:induction false} ClosingPass(s: State, inputs: seq<Input>)
    requires s.status == Closing && |inputs| == |s.clients| && !s.terminated
    ensures Pass(s, inputs).clients == [] && !Pass(s, inputs).terminated
    decreases |inputs|
  {
    if |inputs| > 0 {
      PassStep(s, true, 0, inputs);
      ClosingPass(Drop(s, 0, None), inputs[1..]);
    }
  }
}
