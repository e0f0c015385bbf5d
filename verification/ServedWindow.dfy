/** What a session's reported count and window say about the echoes it was served, over whole runs
    (crates/irtt-server/src/core.rs and session.rs). */
module ServedWindow {
  import opened Prelude
  import opened Session
  import opened ServerCore
  import opened ServerInvariant
  import opened ServerRuns
  import opened ReceiveWindow

  /** The sequence this step serves for `token`, if any: presented, and not rate-limited. */
  function ServedAt(env: Env, core: Core, a: Action, token: Token): seq<u32> {
    if Presented(env, core, a, token) && core.sessions[token].rate.Charge(a.Time()).Allowed?
    then [Sequence(env, core, a, token)] else []
  }

  function ServedBy(env: Env, core: Core, actions: seq<Action>, token: Token): seq<u32>
    decreases |actions|
  {
    if actions == [] then []
    else ServedAt(env, core, actions[0], token) + ServedBy(env, Next(env, core, actions[0]), actions[1..], token)
  }

  lemma ReceiveStep(env: Env, core: Core, a: Action, token: Token)
    requires token in AfterSweep(env, core, a).sessions && token in Next(env, core, a).sessions
    ensures token in core.sessions
    ensures var served := ServedAt(env, core, a, token);
            Next(env, core, a).sessions[token].receive
            == if served == [] then core.sessions[token].receive else core.sessions[token].receive.Accepted(served[0])
  {
    if Presented(env, core, a, token) {
      ReplyEncodes(env, core.sessions[token], token, Sequence(env, core, a, token), a.d);
      hide Closing, ReplyTo;
    } else {
      UntouchedUnlessPresented(env, core, a, token);
    }
  }

  lemma AtMostOne(env: Env, core: Core, a: Action, token: Token)
    ensures var served := ServedAt(env, core, a, token);
            served == [] || served == [served[0]]
  {
  }

  lemma AcceptedNext(history: seq<u32>, sequence: u32)
    ensures Received(history + [sequence]) == Received(history).Accepted(sequence)
  {
    assert (history + [sequence])[..|history|] == history;
  }

  /** A session's receive state after any run is that of the sequences it was served, in order:
      rate-limited, oversized, foreign and unauthentic echoes leave no trace in it. */
  lemma {:induction false} ReceiveIsServed(env: Env, core: Core, actions: seq<Action>, token: Token, before: seq<u32>)
    requires token in core.sessions && core.sessions[token].receive == Received(before)
    requires token in RunOf(env, core, actions).sessions && NotReissued(env, core, actions, token)
    ensures RunOf(env, core, actions).sessions[token].receive == Received(before + ServedBy(env, core, actions, token))
    decreases |actions|
  {
    hide Process, Presented, AfterSweep, Next, ServedAt, Received, ReceiveState.Accepted;
    if actions == [] {
      assert before + [] == before;
    } else {
      var a, next, rest := actions[0], Next(env, core, actions[0]), actions[1..];
      if token in next.sessions {
        ReceiveStep(env, core, a, token);
        var served := ServedAt(env, core, a, token);
        AtMostOne(env, core, a, token);
        if served != [] {
          AcceptedNext(before, served[0]);
        } else {
          assert before + served == before;
        }
        ReceiveIsServed(env, next, rest, token, before + served);
        assert before + served + ServedBy(env, next, rest, token) == before + (served + ServedBy(env, next, rest, token));
      } else {
        GoneStaysGone(env, next, rest, token);
      }
    }
  }

  lemma {:induction false} GoneStaysGone(env: Env, core: Core, actions: seq<Action>, token: Token)
    requires token !in core.sessions && NotReissued(env, core, actions, token)
    ensures token !in RunOf(env, core, actions).sessions
    decreases |actions|
  {
    if actions != [] {
      assert token !in AfterSweep(env, core, actions[0]).sessions;
      hide Process, Presented, AfterSweep, Next;
      GoneStaysGone(env, Next(env, core, actions[0]), actions[1..], token);
    }
  }

  /** What the reply to an echo served after any run reports, where negotiated: the number of
      echoes served, wrapping, and, in bit `k`, exactly whether one of those since the last jump
      lies `k` sequences before this one. */
  lemma ReplyReportsTheServed(env: Env, core: Core, actions: seq<Action>, token: Token, sequence: u32, d: Datagram, k: nat)
    requires token in core.sessions && core.sessions[token].receive == FRESH && k < 64
    requires token in RunOf(env, core, actions).sessions && NotReissued(env, core, actions, token)
    ensures var served := ServedBy(env, core, actions, token) + [sequence];
            var reply := ReplyTo(env, RunOf(env, core, actions).sessions[token], token, sequence, d);
            && (reply.recvCount.Some? ==> reply.recvCount.value == |served| % 0x1_0000_0000)
            && (reply.recvWindow.Some? ==> (Bit(reply.recvWindow.value, k) <==> SeenAt(served, k)))
  {
    ReceiveIsServed(env, core, actions, token, []);
    var served := ServedBy(env, core, actions, token);
    assert [] + served == served;
    AcceptedNext(served, sequence);
    WindowExactly(served + [sequence], k);
    hide Bit, SeenAt, Closing, RunOf, ServedBy, Timestamps;
  }
}
