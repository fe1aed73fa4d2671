/** The scripts of the two demonstration programs: ping sends 25 characters and then receives 25,
    pong the other way round. */
module PingPong {
  import opened Bytes
  import opened Limits
  import opened Channel
  import opened Liveness

  const ROUND: nat := 25

  // The loops of each program, one entry per channel call: true for a send.
  function PingCalls(): seq<bool> {
    seq(2 * ROUND, i => i < ROUND)
  }

  function PongCalls(): seq<bool> {
    seq(2 * ROUND, i => i >= ROUND)
  }

  function Singles(text: seq<byte>): seq<seq<byte>> {
    seq(|text|, i requires 0 <= i < |text| => [text[i]])
  }

  /** Ping as process a, pong as process b, exchanging the given texts one character at a time. */
  function Meeting(a: nat, b: nat, ping: seq<byte>, pong: seq<byte>): Setup
    requires a < PROCESS_LIMIT && b < PROCESS_LIMIT && a != b && |ping| == |pong| == ROUND
  {
    Setup(a, b, PingCalls(), Singles(ping) + Singles(pong))
  }

  /** The two programs are dual: whenever one sends, the other receives. */
  lemma Dual(i: nat)
    requires i < 2 * ROUND
    ensures PongCalls()[i] == !PingCalls()[i]
  {
  }

  /** When both programs have finished a round, under whatever interleaving, pong has received
      exactly ping's text and ping exactly pong's; Channel.OnlyReceiver says who takes each message. */
  lemma TextsExchanged(a: nat, b: nat, ping: seq<byte>, pong: seq<byte>, y0: Sys, mvs: seq<Move>)
    requires a < PROCESS_LIMIT && b < PROCESS_LIMIT && a != b && |ping| == |pong| == ROUND
    requires var u := Meeting(a, b, ping, pong);
             && Initial(u, y0) && AllAllowed(u, y0, mvs)
             && Run(u, y0, mvs).pa == 2 * ROUND && Run(u, y0, mvs).pb == 2 * ROUND
    ensures var got := Run(Meeting(a, b, ping, pong), y0, mvs).got;
            |got| == 2 * ROUND && got[..ROUND] == Singles(ping) && got[ROUND..] == Singles(pong)
    ensures var u := Meeting(a, b, ping, pong);
            forall i | 0 <= i < 50 ::
              Sender(u, i) == (if i < 25 then a else b) && Receiver(u, i) == if i < 25 then b else a
    ensures forall i | 0 <= i < 25 :: Singles(ping)[i] == [ping[i]] && Singles(pong)[i] == [pong[i]]
  {
    var u := Meeting(a, b, ping, pong);
    ExactlyOnce(u, y0, mvs);
    assert u.msgs[..2 * ROUND] == u.msgs;
    assert u.msgs[..ROUND] == Singles(ping) && u.msgs[ROUND..] == Singles(pong);
  }

  /** A round always completes: in every prompt run both programs have finished it, with the texts
      exchanged, by the time the scheduler has been called 800 times, and PROCESS_LIMIT times more
      for every process that has ended itself. */
  lemma RoundCompletes(a: nat, b: nat, ping: seq<byte>, pong: seq<byte>, y0: Sys, mvs: seq<Move>)
    requires a < PROCESS_LIMIT && b < PROCESS_LIMIT && a != b && |ping| == |pong| == ROUND
    requires var u := Meeting(a, b, ping, pong);
             && Initial(u, y0) && Headed(y0) && AllAllowed(u, y0, mvs)
             && Prompt(u, y0, mvs, false) && SchedulerCalls(u, y0, mvs) >= 800 + ExitMoves(mvs) * PROCESS_LIMIT
    ensures var y := Run(Meeting(a, b, ping, pong), y0, mvs);
            && y.pa == y.pb == 2 * ROUND && |y.got| == 2 * ROUND
            && y.got[..ROUND] == Singles(ping) && y.got[ROUND..] == Singles(pong)
  {
    Completes(Meeting(a, b, ping, pong), y0, mvs);
    TextsExchanged(a, b, ping, pong, y0, mvs);
  }
}
