/** How the agent of src/client-agent/start_agent.c goes round its servers.

    What the network does is a finite sequence of dial results and one of replies; a call that needs
    more of either than there is has not returned yet, and ends with `Waiting`.
 */
module ServerRotation {
  import opened Entities

  /** One `recv` while the agent waits for an answer: an error, an empty datagram, something that cannot be
      decrypted, the acknowledgement, or another message. */
  datatype Reply = Silence | Empty | Unreadable | Ack | Other

  datatype Outcome = Succeeded | Failed | Waiting

  /** The servers 0, 1, ..., over and over: the first `m` dials. */
  function Rotation(servers: nat, m: nat): (dialled: seq<nat>)
    requires servers > 0
    ensures |dialled| == m && forall k :: 0 <= k < m ==> dialled[k] == k % servers
  {
    seq(m, k requires 0 <= k => k % servers)
  }

  lemma RotationMore(servers: nat, m: nat)
    requires servers > 0
    ensures Rotation(servers, m + 1) == Rotation(servers, m) + [m % servers]
  {
  }

  lemma NextInTurn(m: nat, servers: nat)
    requires servers > 0
    ensures (m + 1) % servers == if m % servers + 1 == servers then 0 else m % servers + 1
  {
    var q, r := m / servers, m % servers;
    if r + 1 == servers {
      assert m + 1 == servers * (q + 1) by { assert servers * (q + 1) == servers * q + servers; }
      ModIs(m + 1, servers, q + 1, 0);
    } else {
      ModIs(m + 1, servers, q, r + 1);
    }
  }

  lemma ModIs(x: nat, d: nat, q: nat, r: nat)
    requires d > 0 && x == d * q + r && r < d
    ensures x % d == r
  {
    var p := x / d;
    assert d * (q - p) == d * q - d * p == x % d - r;
    assert d * (p - q) == r - x % d;
    if q > p {
      MulAtLeast(d, q - p);
    } else if q < p {
      MulAtLeast(d, p - q);
    }
  }

  lemma MulAtLeast(d: nat, k: nat)
    requires k > 0
    ensures d * k >= d
  {
  }

  /** Among any `servers` dials in a row every server is dialled. */
  lemma EveryServerIsDialled(servers: nat, m: nat, first: nat, server: nat)
    requires server < servers && first + servers <= m
    ensures exists k :: first <= k < first + servers && Rotation(servers, m)[k] == server
  {
    var r, q := first % servers, first / servers;
    var k := if r <= server then first + (server - r) else first + (servers + server - r);
    if r <= server {
      ModIs(k, servers, q, server);
    } else {
      assert servers * (q + 1) == servers * q + servers;
      ModIs(k, servers, q + 1, server);
    }
    assert Rotation(servers, m)[k] == server;
  }

  /** Whose turn it is after `m` dials. */
  function Turn(m: nat, servers: nat): (rc: nat)
    requires servers > 0
    ensures rc < servers
  {
    m % servers
  }

  predicate NoneAnswers(dials: seq<bool>, k: nat)
    requires k <= |dials|
  {
    forall i :: 0 <= i < k ==> !dials[i]
  }

  /** Dial `k` is the first that is answered. */
  predicate FirstAnswer(dials: seq<bool>, k: nat) { k < |dials| && dials[k] && NoneAnswers(dials, k) }

  // ---------- waiting for an answer ----------

  /** The replies for which the agent sleeps. */
  function Quiet(replies: seq<Reply>): (n: nat)
    ensures n <= |replies|
  {
    if replies == [] then 0
    else Quiet(replies[..|replies| - 1]) + if replies[|replies| - 1] in {Silence, Empty} then 1 else 0
  }

  lemma QuietStep(replies: seq<Reply>, i: nat)
    requires i < |replies|
    ensures Quiet(replies[..i + 1]) == Quiet(replies[..i]) + if replies[i] in {Silence, Empty} then 1 else 0
  {
    assert replies[..i + 1][..i] == replies[..i];
  }

  lemma NoneQuiet(replies: seq<Reply>)
    ensures Quiet(replies[..0]) == 0
  {
  }

  /** Reply `i` ends the wait: an acknowledgement, or an error after more than five sleeps. */
  predicate EndsWait(replies: seq<Reply>, i: nat)
    requires i < |replies|
  {
    replies[i] == Ack || (replies[i] == Silence && Quiet(replies[..i]) > 5)
  }

  /** The last reply that was read when `left` are left of `replies`. */
  function LastRead(replies: seq<Reply>, left: seq<Reply>): Option<Reply> {
    if |left| < |replies| then Some(replies[|replies| - |left| - 1]) else None
  }

  lemma {:induction false} QuietIs(replies: seq<Reply>)
    ensures Quiet(replies) == multiset(replies)[Silence] + multiset(replies)[Empty]
  {
    if replies != [] {
      var n := |replies| - 1;
      QuietIs(replies[..n]);
      assert replies == replies[..n] + [replies[n]];
    }
  }

  /** A wait ends with an acknowledgement, or with an error behind at least six errors or empty replies. */
  lemma EndsWaitIff(replies: seq<Reply>, i: nat)
    requires i < |replies|
    ensures var before := multiset(replies[..i]);
            EndsWait(replies, i)
            <==> replies[i] == Ack || (replies[i] == Silence && before[Silence] + before[Empty] >= 6)
  {
    QuietIs(replies[..i]);
  }

  /** A server from which nothing comes is given up with the seventh error, and not before. */
  lemma SilentServer(replies: seq<Reply>, i: nat)
    requires i < |replies| && forall j :: 0 <= j <= i ==> replies[j] == Silence
    ensures EndsWait(replies, i) <==> i >= 6
  {
    AllSilent(replies[..i]);
  }

  lemma {:induction false} AllSilent(replies: seq<Reply>)
    requires forall j :: 0 <= j < |replies| ==> replies[j] == Silence
    ensures Quiet(replies) == |replies|
  {
    if replies != [] {
      AllSilent(replies[..|replies| - 1]);
    }
  }

  /** Empty replies alone never end a wait, but they count for the next error. */
  lemma EmptyReplies(replies: seq<Reply>, i: nat)
    requires i < |replies| && forall j :: 0 <= j < i ==> replies[j] == Empty
    ensures replies[i] == Empty ==> !EndsWait(replies, i)
    ensures replies[i] == Silence ==> (EndsWait(replies, i) <==> i >= 6)
  {
    AllEmpty(replies[..i]);
  }

  lemma {:induction false} AllEmpty(replies: seq<Reply>)
    requires forall j :: 0 <= j < |replies| ==> replies[j] == Empty
    ensures Quiet(replies) == |replies|
  {
    if replies != [] {
      AllEmpty(replies[..|replies| - 1]);
    }
  }

  class Agent {
    /** The number of addresses in `rip`. */
    const servers: nat
    var ripId: nat
    var connected: bool
    /** The servers dialled so far. */
    var dialled: seq<nat>
    /** The results of the dials to come, and the replies to come. */
    var dials: seq<bool>
    var replies: seq<Reply>

    constructor (servers: nat, dials: seq<bool>, replies: seq<Reply>)
      ensures this.servers == servers && this.dials == dials && this.replies == replies
      ensures dialled == [] && !connected
    {
      this.servers, this.dials, this.replies := servers, dials, replies;
      ripId, connected, dialled := 0, false, [];
    }

    ghost predicate InTurn()
      reads this`dialled
    {
      servers > 0 && dialled == Rotation(servers, |dialled|)
    }

    /** Connected to the server dialled last. */
    ghost predicate Ready()
      reads this`ripId, this`connected, this`dialled
    {
      InTurn() && connected && dialled != [] && ripId == dialled[|dialled| - 1]
    }

    /** One `OS_ConnectUDP`. */
    method Dial(rc: nat)
      requires InTurn() && rc == Turn(|dialled|, servers) && dials != []
      modifies this`connected, this`dialled, this`dials
      ensures connected == old(dials)[0] && dials == old(dials)[1..]
      ensures InTurn() && dialled == old(dialled) + [rc]
      ensures Turn(|dialled|, servers) == if rc + 1 == servers then 0 else rc + 1
    {
      connected := dials[0];
      dials := dials[1..];
      RotationMore(servers, |dialled|);
      NextInTurn(|dialled|, servers);
      dialled := dialled + [rc];
    }

    /** `connect_server`: dials from the given server on, going round, until one answers. */
    method ConnectServer(initialId: nat) returns (outcome: Outcome)
      requires initialId <= servers
      requires servers > 0 ==> InTurn() && (if initialId == servers then 0 else initialId) == Turn(|dialled|, servers)
      modifies this`ripId, this`connected, this`dialled, this`dials
      ensures servers == 0 ==> outcome == Failed && dialled == old(dialled) && dials == old(dials)
      ensures servers > 0 ==> InTurn() && outcome != Failed
      ensures outcome == Succeeded ==>
                Ready() && |dialled| > |old(dialled)|
                && FirstAnswer(old(dials), |dialled| - |old(dialled)| - 1)
                && dials == old(dials)[|dialled| - |old(dialled)|..] && |dials| < |old(dials)|
      ensures outcome == Waiting ==>
                !connected && dials == []
                && NoneAnswers(old(dials), |old(dials)|) && |dialled| == |old(dialled)| + |old(dials)|
    {
      hide Turn, Rotation;
      var rc := if initialId == servers then 0 else initialId;
      if connected {
        connected := false;
      }
      if servers == 0 {
        return Failed;
      }
      ghost var k := 0;
      while true
        invariant InTurn() && rc == Turn(|dialled|, servers)
        invariant k <= |old(dials)| && dials == old(dials)[k..] && |dialled| == |old(dialled)| + k && !connected
        invariant NoneAnswers(old(dials), k)
        decreases |dials|
      {
        if dials == [] {
          return Waiting;
        }
        Dial(rc);
        k := k + 1;
        if !connected {
          rc := rc + 1;
          if rc == servers {
            rc := 0;
          }
        } else {
          ripId := rc;
          return Succeeded;
        }
      }
    }

    /** The inner loop of `start_agent`: succeeds with the first reply that ends the wait if that is an
        acknowledgement, and gives up if it is an error. */
    method AwaitAck() returns (outcome: Outcome, attempts: nat)
      modifies this`replies
      ensures outcome == Waiting ==> replies == [] && forall j :: 0 <= j < |old(replies)| ==> !EndsWait(old(replies), j)
      ensures outcome != Waiting ==>
                exists i :: 0 <= i < |old(replies)| && EndsWait(old(replies), i) && replies == old(replies)[i + 1..]
                  && (forall j :: 0 <= j < i ==> !EndsWait(old(replies), j))
                  && (outcome == Succeeded <==> old(replies)[i] == Ack) && attempts == Quiet(old(replies)[..i])
      ensures outcome == Succeeded ==> LastRead(old(replies), replies) == Some(Ack)
      ensures |replies| <= |old(replies)| && replies == old(replies)[|old(replies)| - |replies|..]
    {
      hide Quiet;
      attempts := 0;
      ghost var i := 0;
      NoneQuiet(replies);
      while replies != []
        invariant i <= |old(replies)| && replies == old(replies)[i..] && attempts == Quiet(old(replies)[..i])
        invariant forall j :: 0 <= j < i ==> !EndsWait(old(replies), j)
        decreases |replies|
      {
        var reply := replies[0];
        replies := replies[1..];
        if !(reply != Silence || attempts <= 5) {
          return Failed, attempts;
        }
        QuietStep(old(replies), i);
        if reply == Silence || reply == Empty {
          attempts := attempts + 1;
        } else if reply == Ack {
          return Succeeded, attempts;
        }
        i := i + 1;
      }
      return Waiting, attempts;
    }

    lemma NextTurn()
      requires Ready()
      ensures ripId < servers && Turn(|dialled|, servers) == if ripId + 1 == servers then 0 else ripId + 1
    {
      NextInTurn(|dialled| - 1, servers);
    }

    /** `start_agent`: returns when a server has acknowledged; every round without an acknowledgement goes on
        to the next server. */
    method StartAgent() returns (outcome: Outcome)
      requires Ready()
      modifies this`ripId, this`connected, this`dialled, this`dials, this`replies
      ensures InTurn() && outcome != Failed
      ensures outcome == Succeeded ==> Ready() && LastRead(old(replies), replies) == Some(Ack)
      ensures outcome == Waiting ==> replies == [] || dials == []
      ensures |dialled| >= |old(dialled)|
    {
      hide Turn, Rotation, FirstAnswer, NoneAnswers, EndsWait, Quiet;
      while true
        invariant Ready() && |dialled| >= |old(dialled)|
        invariant |replies| <= |old(replies)| && replies == old(replies)[|old(replies)| - |replies|..]
        decreases |dials|
      {
        var attempts;
        outcome, attempts := AwaitAck();
        if outcome != Failed {
          return;
        }
        NextTurn();
        var connection;
        if servers > 1 {
          connection := ConnectServer(ripId + 1);
        } else {
          connection := ConnectServer(0);
        }
        if connection == Waiting {
          return Waiting;
        }
      }
    }

    /** The agent's life: the first connection, then `start_agent` at startup and again `restarts` times,
        whenever the server has been silent too long. */
    method Live(restarts: nat) returns (outcome: Outcome)
      requires dialled == []
      modifies this`ripId, this`connected, this`dialled, this`dials, this`replies
      ensures servers > 0 ==> dialled == Rotation(servers, |dialled|)
      ensures servers == 0 ==> outcome == Failed && dialled == []
      ensures outcome == Succeeded ==> Ready()
    {
      outcome := ConnectServer(0);
      if outcome != Succeeded {
        return;
      }
      hide Rotation;
      var starts := 0;
      while starts <= restarts
        invariant starts <= restarts + 1 && Ready()
      {
        outcome := StartAgent();
        if outcome != Succeeded {
          return;
        }
        starts := starts + 1;
      }
    }
  }
}
