/**
 The exchange between the client and one request handler of the daemon, over a socket that
 keeps packet boundaries. Client and handler run concurrently; a run is any interleaving of
 their single reads and writes. A party that reads a packet other than the one its code
 expects there is lost.
 */
module Lockstep {
  import opened Bytes
  import opened Sticks

  datatype Command = MsrDebug | MsrStatic | MsrDynamic | Dmidecode | DevPci | SysDebug | LoadModule

  type Info = seq<u8>

  datatype Packet =
    | Cmd(command: Command)
    | Number(u: u16)                                  // core or CPU count
    | StaticMsr(minMult: int, maxMult: int, bclk: int)
    | DynamicMsr(voltage: int, temp: int)
    | Int(v: int)                                     // return code
    | Cpu(cpu: Info)
    | Board(board: Info)
    | Bios(bios: Info)
    | StickCount(n: u8)
    | Stick(stick: StickData)
    | ModuleLength(length: nat)
    | ModuleName(name: seq<u8>)                       // with its terminating zero byte

  datatype Call =
    | CallDebug(count: u16)
    | CallStatic(core: u16)
    | CallDynamic(core: u16)
    | CallDmidecode
    | CallDevPci
    | CallSysDebug
    | CallLoad(name: seq<u8>)

  /** What the client writes for a call, one packet after the other. */
  function Request(c: Call): (r: seq<Packet>)
    ensures 1 <= |r| <= 3
  {
    match c
    case CallDebug(count) => [Cmd(MsrDebug), Number(count)]
    case CallStatic(core) => [Cmd(MsrStatic), Number(core)]
    case CallDynamic(core) => [Cmd(MsrDynamic), Number(core)]
    case CallDmidecode => [Cmd(Dmidecode)]
    case CallDevPci => [Cmd(DevPci)]
    case CallSysDebug => [Cmd(SysDebug)]
    case CallLoad(name) => [Cmd(LoadModule), ModuleLength(|name| + 1), ModuleName(name + [0])]
  }

  // ----- The client's reading code

  /** Whether p is what the client is about to read, after it has read got. */
  predicate ClientExpects(c: Call, got: seq<Packet>, p: Packet) {
    match c
    case CallDebug(_) => false
    case CallStatic(_) => p.StaticMsr?
    case CallDynamic(_) => p.DynamicMsr?
    case CallDmidecode =>
      if |got| == 0 then p.Int?
      else if |got| == 1 then p.Cpu?
      else if |got| == 2 then p.Board?
      else if |got| == 3 then p.Bios?
      else if |got| == 4 then p.StickCount?
      else p.Stick?
    case _ => p.Int?
  }

  /** Whether the call returns without reading more. */
  predicate ClientDone(c: Call, got: seq<Packet>) {
    match c
    case CallDebug(_) => true
    case CallDmidecode =>
      || (|got| >= 1 && got[0].Int? && got[0].v != 0)
      || (|got| >= 5 && got[4].StickCount? && |got| >= 5 + got[4].n)
    case _ => |got| >= 1
  }

  // ----- The handler's reading code

  /** How many packets the handler of a command reads after the command. */
  function Arity(c: Command): nat {
    match c
    case MsrDebug => 1
    case MsrStatic => 1
    case MsrDynamic => 1
    case LoadModule => 2
    case _ => 0
  }

  predicate HandlerExpects(c: Command, args: seq<Packet>, p: Packet) {
    match c
    case LoadModule =>
      if |args| == 0 then p.ModuleLength?
      else args[0].ModuleLength? && p.ModuleName? && |p.name| == args[0].length
    case _ => p.Number?
  }

  /** The replies that the handler of a command may compute. */
  predicate MayReply(c: Command, reply: seq<Packet>) {
    match c
    case MsrDebug => reply == []
    case MsrStatic => |reply| == 1 && reply[0].StaticMsr?
    case MsrDynamic => |reply| == 1 && reply[0].DynamicMsr?
    case Dmidecode =>
      && |reply| >= 5
      && reply[0].Int? && reply[1].Cpu? && reply[2].Board? && reply[3].Bios? && reply[4].StickCount?
      && |reply| == 5 + reply[4].n
      && forall k :: 5 <= k < |reply| ==> reply[k].Stick?
    case _ => |reply| == 1 && reply[0].Int?
  }

  /** A reply to a call that reports no failure of the table decoder. */
  predicate GoodReply(c: Call, reply: seq<Packet>) {
    MayReply(CommandOf(c), reply) && (c == CallDmidecode ==> reply[0].v == 0)
  }

  function CommandOf(c: Call): Command {
    match c
    case CallDebug(_) => MsrDebug
    case CallStatic(_) => MsrStatic
    case CallDynamic(_) => MsrDynamic
    case CallDmidecode => Dmidecode
    case CallDevPci => DevPci
    case CallSysDebug => SysDebug
    case CallLoad(_) => LoadModule
  }

  // ----- How much of a reply a call reads

  /** How many packets the client reads when a reply arrives, k of them already read. */
  function Reads(c: Call, reply: seq<Packet>, k: nat): nat
    requires k <= |reply|
    decreases |reply| - k
  {
    if ClientDone(c, reply[..k]) || k == |reply| then k else Reads(c, reply, k + 1)
  }

  /** A call reads its whole reply exactly when it does not report a failure of the table decoder. */
  lemma ReadsAllIff(c: Call, reply: seq<Packet>)
    requires MayReply(CommandOf(c), reply)
    ensures Reads(c, reply, 0) == |reply| <==> c != CallDmidecode || reply[0].v == 0
  {
    if c == CallDmidecode {
      assert reply[..1][0] == reply[0];
      if reply[0].v == 0 {
        ReadsRest(reply, 1);
      } else {
        assert ClientDone(c, reply[..1]);
        assert Reads(c, reply, 1) == 1;
      }
    }
  }

  lemma {:induction false} ReadsRest(reply: seq<Packet>, k: nat)
    requires MayReply(Dmidecode, reply) && reply[0].v == 0 && 1 <= k <= |reply|
    ensures Reads(CallDmidecode, reply, k) == |reply|
    decreases |reply| - k
  {
    assert reply[..k][0] == reply[0];
    if k < |reply| {
      assert k >= 5 ==> reply[..k][4] == reply[4];
      ReadsRest(reply, k + 1);
    }
  }

  // ----- The system

  datatype Client =
    | Idle
    | Sending(call: Call, unsent: seq<Packet>)
    | Receiving(call: Call, got: seq<Packet>)
    | ClientLost

  datatype Handler =
    | Top
    | Reading(command: Command, args: seq<Packet>)
    | Replying(rest: seq<Packet>)
    | HandlerLost

  datatype Exchange = Exchange(call: Call, reply: seq<Packet>)

  /**
   issued, returned, handled and heard are histories: calls begun, calls returned with what was
   read, replies computed, and the packets from which the handler computed each of them.
   */
  datatype System = System(
    client: Client,
    handler: Handler,
    toHandler: seq<Packet>,
    toClient: seq<Packet>,
    issued: seq<Call>,
    returned: seq<Exchange>,
    handled: seq<seq<Packet>>,
    heard: seq<seq<Packet>>)

  datatype Event =
    | Begin(call: Call)
    | ClientWrites
    | ClientReads
    | HandlerReads(reply: seq<Packet>)   // the reply is used when the request is complete
    | HandlerWrites

  const QUIET := System(Idle, Top, [], [], [], [], [], [])

  /** The client leaves a call or goes on reading. */
  function AfterClient(s: System, c: Call, got: seq<Packet>): System {
    if ClientDone(c, got) then s.(client := Idle, returned := s.returned + [Exchange(c, got)])
    else s.(client := Receiving(c, got))
  }

  /** The handler computes its reply once it has read enough. */
  function AfterHandler(s: System, c: Command, args: seq<Packet>, reply: seq<Packet>): System {
    if |args| < Arity(c) then s.(handler := Reading(c, args))
    else s.(handler := if reply == [] then Top else Replying(reply),
            handled := s.handled + [reply], heard := s.heard + [[Cmd(c)] + args])
  }

  /** Whether the handler is waiting for the last packet of a request, and of which command. */
  function Completes(s: System): Option<Command> {
    if s.toHandler == [] then None
    else
      match s.handler
      case Top => if s.toHandler[0].Cmd? && Arity(s.toHandler[0].command) == 0 then Some(s.toHandler[0].command) else None
      case Reading(c, args) => if |args| + 1 == Arity(c) then Some(c) else None
      case _ => None
  }

  predicate Enabled(s: System, e: Event) {
    match e
    case Begin(_) => s.client == Idle
    case ClientWrites => s.client.Sending? && s.client.unsent != []
    case ClientReads => s.client.Receiving? && s.toClient != []
    case HandlerReads(reply) =>
      && (s.handler == Top || s.handler.Reading?) && s.toHandler != []
      && (Completes(s).Some? ==> MayReply(Completes(s).value, reply))
    case HandlerWrites => s.handler.Replying? && s.handler.rest != []
  }

  function Step(s: System, e: Event): System
    requires Enabled(s, e)
  {
    match e
    case Begin(c) => s.(client := Sending(c, Request(c)), issued := s.issued + [c])
    case ClientWrites =>
      var t := s.(toHandler := s.toHandler + [s.client.unsent[0]]);
      if |s.client.unsent| > 1 then t.(client := Sending(s.client.call, s.client.unsent[1..]))
      else AfterClient(t, s.client.call, [])
    case ClientReads =>
      var t := s.(toClient := s.toClient[1..]);
      if ClientExpects(s.client.call, s.client.got, s.toClient[0])
      then AfterClient(t, s.client.call, s.client.got + [s.toClient[0]])
      else t.(client := ClientLost)
    case HandlerReads(reply) =>
      var p, t := s.toHandler[0], s.(toHandler := s.toHandler[1..]);
      if s.handler == Top then
        if p.Cmd? then AfterHandler(t, p.command, [], reply) else t.(handler := HandlerLost)
      else if HandlerExpects(s.handler.command, s.handler.args, p)
      then AfterHandler(t, s.handler.command, s.handler.args + [p], reply)
      else t.(handler := HandlerLost)
    case HandlerWrites =>
      s.(toClient := s.toClient + [s.handler.rest[0]],
         handler := if |s.handler.rest| > 1 then Replying(s.handler.rest[1..]) else Top)
  }

  predicate Runs(s: System, events: seq<Event>, t: System)
    decreases |events|
  {
    if events == [] then t == s
    else Enabled(s, events[0]) && Runs(Step(s, events[0]), events[1..], t)
  }

  /** No table decoder in this run reports a failure. */
  predicate Succeeds(e: Event) {
    e.HandlerReads? && |e.reply| >= 5 && e.reply[0].Int? ==> e.reply[0].v == 0
  }

  // ----- The invariant

  function Requests(calls: seq<Call>): seq<Packet> {
    if calls == [] then [] else Request(calls[0]) + Requests(calls[1..])
  }

  lemma {:induction false} RequestsAppend(calls: seq<Call>, c: Call)
    ensures Requests(calls + [c]) == Requests(calls) + Request(c)
    decreases |calls|
  {
    if calls == [] {
      assert ([c])[1..] == [];
      assert [] + [c] == [c];
    } else {
      RequestsAppend(calls[1..], c);
      assert (calls + [c])[1..] == calls[1..] + [c];
    }
  }

  function Unsent(s: System): seq<Packet> {
    if s.client.Sending? then s.client.unsent else []
  }

  /** Packets of the request in progress that the handler has read. */
  function Taken(s: System): nat {
    if s.handler.Reading? then 1 + |s.handler.args| else 0
  }

  function Rest(s: System): seq<Packet> {
    if s.handler.Replying? then s.handler.rest else []
  }

  /** The request packets that the handler has not completely answered yet. */
  function Due(s: System): seq<Packet>
    requires |s.handled| <= |s.issued|
  {
    Requests(s.issued[|s.handled|..])
  }

  /** Written and unwritten request packets are just what the handler has still to read. */
  predicate StreamOk(s: System) {
    && |s.handled| <= |s.issued|
    && Taken(s) <= |Due(s)|
    && s.toHandler + Unsent(s) == Due(s)[Taken(s)..]
    && (s.handler.Reading? ==> ReadingOk(s))
  }

  /** The handler has read a proper, non-empty part of the oldest request that it has not answered. */
  predicate ReadingOk(s: System)
    requires s.handler.Reading?
  {
    && |s.handled| < |s.issued|
    && var request := Request(s.issued[|s.handled|]);
      Taken(s) < |request| && [Cmd(s.handler.command)] + s.handler.args == request[..Taken(s)]
  }

  predicate HandledOk(s: System) {
    && |s.handled| <= |s.issued|
    && |s.heard| == |s.handled|
    && forall j :: 0 <= j < |s.handled| ==> GoodReply(s.issued[j], s.handled[j]) && s.heard[j] == Request(s.issued[j])
  }

  predicate ReturnedOk(s: System) {
    && |s.issued| == |s.returned| + (if s.client == Idle then 0 else 1)
    && forall j :: 0 <= j < |s.returned| ==>
      && s.returned[j].call == s.issued[j]
      && (if j < |s.handled| then s.returned[j].reply == s.handled[j]
          else s.issued[j].CallDebug? && s.returned[j].reply == [])
  }

  /** What has been read of the current reply, what is under way and what is still to be written. */
  predicate ReplyOk(s: System) {
    match s.client
    case Idle => s.toClient == [] && Rest(s) == [] && |s.handled| <= |s.returned|
    case Sending(c, unsent) =>
      && s.toClient == [] && Rest(s) == [] && |s.handled| <= |s.returned|
      && unsent != [] && |s.issued| > 0 && s.issued[|s.issued| - 1] == c
      && |unsent| <= |Request(c)| && unsent == Request(c)[|Request(c)| - |unsent|..]
    case Receiving(c, got) =>
      && |s.issued| > 0 && s.issued[|s.issued| - 1] == c
      && !ClientDone(c, got)
      && |s.handled| <= |s.returned| + 1
      && (if |s.handled| <= |s.returned| then got == [] && s.toClient == [] && Rest(s) == []
          else got + s.toClient + Rest(s) == s.handled[|s.returned|])
    case ClientLost => false
  }

  predicate Inv(s: System) {
    && s.handler != HandlerLost
    && (s.handler.Replying? ==> s.handler.rest != [])
    && StreamOk(s) && HandledOk(s) && ReturnedOk(s) && ReplyOk(s)
  }

  // ----- Every step keeps the invariant

  /** The packets of a request are the ones that its handler expects. */
  lemma RequestShape(c: Call, args: seq<Packet>)
    ensures |Request(c)| == 1 + Arity(CommandOf(c)) && Request(c)[0] == Cmd(CommandOf(c))
    ensures |args| < Arity(CommandOf(c)) && args == Request(c)[1..1 + |args|] ==>
      HandlerExpects(CommandOf(c), args, Request(c)[1 + |args|])
  {
  }

  /** Each packet of a successful reply is expected when its predecessors have been read. */
  lemma ReplyShape(c: Call, reply: seq<Packet>, got: seq<Packet>)
    requires GoodReply(c, reply)
    requires |got| <= |reply| && got == reply[..|got|] && !c.CallDebug?
    ensures |got| < |reply| ==> ClientExpects(c, got, reply[|got|])
    ensures ClientDone(c, got) <==> |got| == |reply|
  {
    if c == CallDmidecode {
      if |got| >= 1 {
        assert got[0] == reply[0];
      }
      if |got| >= 5 {
        assert got[4] == reply[4];
      }
    }
  }

  lemma DueFirst(s: System)
    requires |s.handled| < |s.issued|
    ensures Due(s) == Request(s.issued[|s.handled|]) + Requests(s.issued[|s.handled| + 1..])
  {
    assert s.issued[|s.handled|..][1..] == s.issued[|s.handled| + 1..];
  }

  lemma BeginKeepsInv(s: System, c: Call)
    requires Inv(s) && s.client == Idle
    ensures Inv(Step(s, Begin(c)))
  {
    hide Requests, GoodReply, MayReply;
    var t, h := Step(s, Begin(c)), |s.handled|;
    RequestsAppend(s.issued[h..], c);
    assert t.issued[h..] == s.issued[h..] + [c];
    assert Due(t) == Due(s) + Request(c);
    assert Due(t)[Taken(s)..] == Due(s)[Taken(s)..] + Request(c);
    assert s.toHandler == s.toHandler + Unsent(s);
    hide Request;
    assert Request(c)[0..] == Request(c);
  }

  lemma ClientWritesKeepsInv(s: System)
    requires Inv(s) && Enabled(s, ClientWrites)
    ensures Inv(Step(s, ClientWrites))
  {
    hide StreamOk, HandledOk, ReturnedOk, ReplyOk, ClientDone, Request;
    var t := Step(s, ClientWrites);
    WriteStream(s, t);
    SameHandled(s, t);
    SendingStep(s);
  }

  lemma WriteStream(s: System, t: System)
    requires StreamOk(s) && s.client.Sending? && s.client.unsent != []
    requires t.toHandler == s.toHandler + [s.client.unsent[0]] && Unsent(t) == s.client.unsent[1..]
    requires t.issued == s.issued && t.handled == s.handled && t.handler == s.handler
    ensures StreamOk(t)
  {
    hide Requests, Request;
    assert t.toHandler + Unsent(t) == s.toHandler + Unsent(s);
    assert Due(t) == Due(s) && Taken(t) == Taken(s);
  }

  lemma SendingStep(s: System)
    requires Enabled(s, ClientWrites) && ReturnedOk(s) && ReplyOk(s)
    ensures ReturnedOk(Step(s, ClientWrites)) && ReplyOk(Step(s, ClientWrites))
  {
    hide Request;
    var c, u := s.client.call, s.client.unsent;
    assert |u| > 1 ==> u[1..] == Request(c)[|Request(c)| - |u[1..]|..];
  }

  lemma SameHandled(s: System, t: System)
    requires HandledOk(s) && t.handled == s.handled && t.issued == s.issued && t.heard == s.heard
    ensures HandledOk(t)
  {
    hide GoodReply, MayReply, Request;
  }

  lemma ClientReadsKeepsInv(s: System)
    requires Inv(s) && s.client.Receiving? && s.toClient != []
    ensures Inv(Step(s, ClientReads))
  {
    hide Requests, GoodReply, MayReply, Request, ClientExpects, ClientDone;
    var c, got, p, m := s.client.call, s.client.got, s.toClient[0], |s.returned|;
    var r, t := s.handled[m], Step(s, ClientReads);
    assert r == got + s.toClient + Rest(s);
    ReplyShape(c, r, got) by {
      NotDebug(c, got);
    }
    assert r[|got|] == p;
    assert got + [p] == r[..|got| + 1];
    NotDebug(c, got);
    ReplyShape(c, r, got + [p]);
    assert (got + [p]) + s.toClient[1..] + Rest(s) == r;
    assert Due(t) == Due(s);
  }

  lemma NotDebug(c: Call, got: seq<Packet>)
    requires !ClientDone(c, got)
    ensures !c.CallDebug?
  {
  }

  /** Where the answer to the oldest open request goes: to the call that is waiting for it, or nowhere. */
  lemma AnswerKeepsInv(s: System, t: System, reply: seq<Packet>)
    requires Inv(s) && Rest(s) == [] && |s.handled| < |s.issued|
    requires GoodReply(s.issued[|s.handled|], reply)
    requires Taken(s) + 1 == |Request(s.issued[|s.handled|])| && s.toHandler != []
    requires t == s.(toHandler := s.toHandler[1..],
                     handler := if reply == [] then Top else Replying(reply),
                     handled := s.handled + [reply], heard := s.heard + [Request(s.issued[|s.handled|])])
    ensures Inv(t)
  {
    hide Requests, Request, GoodReply, MayReply;
    AnswerStream(s, t);
    AnswerGoes(s);
    DebugIffSilent(s.issued[|s.handled|], reply);
    hide StreamOk;
    AnswerHandled(s, t, reply);
    hide HandledOk;
    AnswerReturned(s, t, reply);
    AnswerReply(s, t, reply);
  }

  lemma DebugIffSilent(c: Call, reply: seq<Packet>)
    requires GoodReply(c, reply)
    ensures c.CallDebug? <==> reply == []
  {
  }

  lemma AnswerHandled(s: System, t: System, reply: seq<Packet>)
    requires HandledOk(s) && |s.handled| < |s.issued|
    requires GoodReply(s.issued[|s.handled|], reply)
    requires t.issued == s.issued && t.handled == s.handled + [reply]
    requires t.heard == s.heard + [Request(s.issued[|s.handled|])]
    ensures HandledOk(t)
  {
    hide GoodReply, MayReply, Request;
  }

  lemma AnswerReturned(s: System, t: System, reply: seq<Packet>)
    requires ReturnedOk(s) && |s.handled| < |s.issued|
    requires |s.handled| < |s.returned| ==> s.issued[|s.handled|].CallDebug? && reply == []
    requires t.issued == s.issued && t.handled == s.handled + [reply] && t.returned == s.returned && t.client == s.client
    ensures ReturnedOk(t)
  {
  }

  lemma AnswerReply(s: System, t: System, reply: seq<Packet>)
    requires ReplyOk(s) && Rest(s) == [] && |s.handled| < |s.issued|
    requires |s.handled| < |s.returned| ==> reply == []
    requires |s.handled| >= |s.returned| ==> |s.handled| == |s.returned| && s.client.Receiving?
    requires s.toHandler != []
    requires t == s.(toHandler := s.toHandler[1..],
                     handler := if reply == [] then Top else Replying(reply),
                     handled := s.handled + [reply], heard := s.heard + [Request(s.issued[|s.handled|])])
    ensures ReplyOk(t)
  {
    hide Request, ClientDone;
    assert |s.handled| == |s.returned| ==> [] + [] + reply == reply;
  }

  lemma AnswerStream(s: System, t: System)
    requires StreamOk(s) && |s.handled| < |s.issued| && s.toHandler != []
    requires Taken(s) + 1 == |Request(s.issued[|s.handled|])|
    requires t.issued == s.issued && t.client == s.client && |t.handled| == |s.handled| + 1
    requires t.toHandler == s.toHandler[1..] && !t.handler.Reading?
    ensures StreamOk(t)
  {
    hide Request, Requests;
    DueFirst(s);
    assert Due(t) == Requests(s.issued[|s.handled| + 1..]);
    assert Due(s)[Taken(s) + 1..] == Due(t);
    assert Due(s)[Taken(s)..][1..] == Due(s)[Taken(s) + 1..];
    assert t.toHandler + Unsent(t) == (s.toHandler + Unsent(s))[1..];
    assert Due(t)[0..] == Due(t);
  }

  /** The oldest open request is a debug request or the one whose call is waiting for the reply. */
  lemma AnswerGoes(s: System)
    requires Inv(s) && Rest(s) == [] && |s.handled| < |s.issued| && s.toHandler != []
    requires Taken(s) + 1 == |Request(s.issued[|s.handled|])|
    ensures |s.handled| < |s.returned| ==> s.issued[|s.handled|].CallDebug?
    ensures |s.handled| >= |s.returned| ==>
      |s.handled| == |s.returned| && s.client.Receiving? && s.client.call == s.issued[|s.handled|]
  {
    hide GoodReply, MayReply, HandledOk, Requests, Request;
    if s.client.Sending? && |s.handled| == |s.returned| {
      LastDue(s);
    }
  }

  lemma NothingDue(s: System)
    requires |s.handled| == |s.issued|
    ensures Due(s) == []
  {
    assert s.issued[|s.handled|..] == [];
  }

  lemma LastDue(s: System)
    requires |s.handled| + 1 == |s.issued|
    ensures Due(s) == Request(s.issued[|s.handled|])
  {
    DueFirst(s);
    assert s.issued[|s.handled| + 1..] == [];
  }

  lemma HandlerReadsKeepsInv(s: System, reply: seq<Packet>)
    requires Inv(s) && Enabled(s, HandlerReads(reply)) && Succeeds(HandlerReads(reply))
    ensures Inv(Step(s, HandlerReads(reply)))
  {
    NextPacket(s);
    var c, t := s.issued[|s.handled|], Step(s, HandlerReads(reply));
    if Taken(s) + 1 == |Request(c)| {
      SuccessfulReply(c, reply);
      HeardWhole(s, c);
      hide GoodReply, MayReply, Request, Requests, HandlerExpects, StreamOk, ReplyOk, ReturnedOk, HandledOk;
      AnswerKeepsInv(s, t, reply);
    } else {
      hide GoodReply, MayReply, HandlerExpects, Request, Requests, HandledOk, ReplyOk, ReturnedOk;
      ReadingStream(s, t);
      assert HandledOk(t) && ReplyOk(t) && ReturnedOk(t) by {
        SameOtherwise(s, t);
      }
    }
  }

  /** With its last packet, a request has been heard as it was made. */
  lemma HeardWhole(s: System, c: Call)
    requires StreamOk(s) && s.toHandler != [] && |s.handled| < |s.issued| && c == s.issued[|s.handled|]
    requires (s.handler == Top || s.handler.Reading?) && Taken(s) + 1 == |Request(c)|
    requires s.toHandler[0] == Request(c)[Taken(s)]
    ensures s.handler == Top ==> [s.toHandler[0]] + [] == Request(c)
    ensures s.handler.Reading? ==> [Cmd(s.handler.command)] + (s.handler.args + [s.toHandler[0]]) == Request(c)
  {
    hide Request, Requests, Due;
    var k := Taken(s);
    assert Request(c) == Request(c)[..k] + [Request(c)[k]];
  }

  lemma SameOtherwise(s: System, t: System)
    requires HandledOk(s) && ReturnedOk(s) && ReplyOk(s)
    requires t.client == s.client && t.toClient == s.toClient && Rest(t) == Rest(s)
    requires t.issued == s.issued && t.returned == s.returned && t.handled == s.handled && t.heard == s.heard
    ensures HandledOk(t) && ReturnedOk(t) && ReplyOk(t)
  {
    hide GoodReply, MayReply, Request;
  }

  /** The next packet for the handler is the next one of the oldest open request, as its code expects. */
  lemma NextPacket(s: System)
    requires StreamOk(s) && s.toHandler != [] && (s.handler == Top || s.handler.Reading?)
    ensures |s.handled| < |s.issued|
    ensures var c, k := s.issued[|s.handled|], Taken(s);
      && k < |Request(c)| == 1 + Arity(CommandOf(c)) && s.toHandler[0] == Request(c)[k]
      && (s.handler == Top ==> s.toHandler[0] == Cmd(CommandOf(c)))
      && (s.handler.Reading? ==>
        && s.handler.command == CommandOf(c)
        && HandlerExpects(CommandOf(c), s.handler.args, s.toHandler[0]))
  {
    hide Request, Requests, HandlerExpects;
    var h, k := |s.handled|, Taken(s);
    if h == |s.issued| {
      NothingDue(s);
    }
    assert s.toHandler[0] == (s.toHandler + Unsent(s))[0] == Due(s)[k];
    var c := s.issued[h];
    DueFirst(s);
    RequestShape(c, []);
    if s.handler.Reading? {
      var args := s.handler.args;
      assert Request(c)[..k][0] == Cmd(s.handler.command);
      assert args == Request(c)[..k][1..] == Request(c)[1..k];
      RequestShape(c, args);
    }
  }

  lemma ReadingStream(s: System, t: System)
    requires StreamOk(s) && s.toHandler != [] && |s.handled| < |s.issued| && !s.handler.Replying?
    requires var c, k := s.issued[|s.handled|], Taken(s);
      && k + 1 < |Request(c)| && s.toHandler[0] == Request(c)[k]
      && (k == 0 ==> s.toHandler[0] == Cmd(CommandOf(c)))
    requires var args := if s.handler.Reading? then s.handler.args + [s.toHandler[0]] else [];
      t == s.(toHandler := s.toHandler[1..],
              handler := Reading(if s.handler.Reading? then s.handler.command else CommandOf(s.issued[|s.handled|]), args))
    requires s.handler == Top || s.handler.Reading?
    ensures StreamOk(t)
  {
    hide Request, Requests, Due;
    var c, k := s.issued[|s.handled|], Taken(s);
    DueFirst(s);
    DueSame(s, t);
    assert k < |Due(s)|;
    OneTaken(s.toHandler, Unsent(s), Due(s), k);
    hide CommandOf;
    ReadMore(s, t, c, k);
  }

  lemma DueSame(s: System, t: System)
    requires |s.handled| <= |s.issued| && t.handled == s.handled && t.issued == s.issued
    ensures Due(t) == Due(s)
  {
  }

  lemma OneTaken(written: seq<Packet>, unwritten: seq<Packet>, due: seq<Packet>, k: nat)
    requires written != [] && k < |due| && written + unwritten == due[k..]
    ensures written[1..] + unwritten == due[k + 1..]
  {
    assert written[1..] + unwritten == (written + unwritten)[1..];
  }

  /** What the handler has read of its request, after one more packet. */
  lemma ReadMore(s: System, t: System, c: Call, k: nat)
    requires k == Taken(s) && k + 1 < |Request(c)| && |s.handled| < |s.issued| && c == s.issued[|s.handled|]
    requires s.toHandler != [] && s.toHandler[0] == Request(c)[k] && t.handled == s.handled && t.issued == s.issued
    requires s.handler.Reading? ==> ReadingOk(s) && t.handler == s.handler.(args := s.handler.args + [s.toHandler[0]])
    requires s.handler == Top ==> s.toHandler[0] == Cmd(CommandOf(c)) && t.handler == Reading(CommandOf(c), [])
    requires s.handler == Top || s.handler.Reading?
    ensures t.handler.Reading? && Taken(t) == k + 1 && ReadingOk(t)
  {
    hide Request;
    PrefixMore(Request(c), k);
  }

  lemma PrefixMore(ps: seq<Packet>, k: nat)
    requires k < |ps|
    ensures ps[..k + 1] == ps[..k] + [ps[k]]
  {
  }

  lemma SuccessfulReply(c: Call, reply: seq<Packet>)
    requires MayReply(CommandOf(c), reply) && Succeeds(HandlerReads(reply))
    ensures GoodReply(c, reply)
  {
  }

  lemma HandlerWritesKeepsInv(s: System)
    requires Inv(s) && s.handler.Replying?
    ensures Inv(Step(s, HandlerWrites))
  {
    hide Requests, GoodReply, MayReply, Request;
    var t, rest := Step(s, HandlerWrites), s.handler.rest;
    assert HandledOk(t) by {
      SameHandled(s, t);
    }
    hide HandledOk, ClientDone;
    assert rest == [rest[0]] + rest[1..];
    assert t.toClient + Rest(t) == s.toClient + rest;
    assert s.client.Receiving?;
    Regroup(s.client.got, s.toClient, rest);
    assert Due(t) == Due(s);
  }

  lemma Regroup(a: seq<Packet>, b: seq<Packet>, c: seq<Packet>)
    requires c != []
    ensures a + (b + [c[0]]) + c[1..] == a + b + c
  {
  }

  lemma StepKeepsInv(s: System, e: Event)
    requires Inv(s) && Enabled(s, e) && Succeeds(e)
    ensures Inv(Step(s, e))
  {
    hide Inv, Step, Succeeds;
    match e
    case Begin(c) => BeginKeepsInv(s, c);
    case ClientWrites => ClientWritesKeepsInv(s);
    case ClientReads => ClientReadsKeepsInv(s);
    case HandlerReads(reply) => HandlerReadsKeepsInv(s, reply);
    case HandlerWrites => HandlerWritesKeepsInv(s);
  }

  lemma {:induction false} RunKeepsInv(s: System, events: seq<Event>, t: System)
    requires Inv(s) && Runs(s, events, t) && forall k :: 0 <= k < |events| ==> Succeeds(events[k])
    ensures Inv(t)
    decreases |events|
  {
    if events != [] {
      StepKeepsInv(s, events[0]);
      RunKeepsInv(Step(s, events[0]), events[1..], t);
    }
  }

  lemma InvReached(events: seq<Event>, t: System)
    requires Runs(QUIET, events, t) && forall k :: 0 <= k < |events| ==> Succeeds(events[k])
    ensures Inv(t)
  {
    assert Requests([]) == [];
    assert Inv(QUIET);
    hide *;
    RunKeepsInv(QUIET, events, t);
  }

  /**
   Over every interleaving in which the table decoder reports success, nobody is lost; between
   calls no reply packet is under way and only requests that get no reply can still be
   unread; and once the handler has caught up, both queues are empty and every call has
   returned with exactly the reply that was computed for it, in order.
   */
  lemma Lockstep(events: seq<Event>, t: System)
    requires Runs(QUIET, events, t) && forall k :: 0 <= k < |events| ==> Succeeds(events[k])
    ensures t.client != ClientLost && t.handler != HandlerLost
    ensures t.client == Idle ==>
      && t.toClient == [] && |t.handled| <= |t.issued| == |t.returned|
      && (forall j :: |t.handled| <= j < |t.issued| ==> t.issued[j].CallDebug?)
      && (forall j :: 0 <= j < |t.returned| ==> t.returned[j].call == t.issued[j])
      && (forall j :: 0 <= j < |t.handled| ==> t.returned[j].reply == t.handled[j])
    ensures t.client == Idle && t.handler == Top ==> (t.toHandler == [] <==> |t.handled| == |t.issued|)
  {
    InvReached(events, t);
    hide Requests, Request, GoodReply, MayReply, Runs, Succeeds;
    if t.client == Idle && t.handler == Top {
      if |t.handled| < |t.issued| {
        DueFirst(t);
      } else {
        NothingDue(t);
      }
    }
  }

  // ----- What a request says

  /** The call that a handler can tell from the command and the arguments it has read. */
  function Understood(heard: seq<Packet>): Option<Call> {
    if heard == [] || !heard[0].Cmd? then None
    else
      match heard[0].command
      case Dmidecode => if |heard| == 1 then Some(CallDmidecode) else None
      case DevPci => if |heard| == 1 then Some(CallDevPci) else None
      case SysDebug => if |heard| == 1 then Some(CallSysDebug) else None
      case LoadModule => if |heard| == 3 then ModuleCall(heard[1], heard[2]) else None
      case c => if |heard| == 2 && heard[1].Number? then Some(NumberCall(c, heard[1].u)) else None
  }

  function NumberCall(c: Command, n: u16): Call {
    if c == MsrDebug then CallDebug(n) else if c == MsrStatic then CallStatic(n) else CallDynamic(n)
  }

  /** The announced length counts the zero byte that ends the name. */
  function ModuleCall(length: Packet, name: Packet): Option<Call> {
    if length.ModuleLength? && name.ModuleName? && length.length == |name.name| > 0 && name.name[|name.name| - 1] == 0
    then Some(CallLoad(name.name[..|name.name| - 1]))
    else None
  }

  /** A request says which call it is for, with its core, count or module name, and nothing else says so. */
  lemma RequestUnderstood(heard: seq<Packet>, c: Call)
    ensures Understood(heard) == Some(c) <==> heard == Request(c)
  {
    if c.CallLoad? {
      assert (c.name + [0])[..|c.name|] == c.name;
      if Understood(heard) == Some(c) {
        var text := heard[2].name;
        assert text == c.name + [text[|text| - 1]];
      }
    }
  }

  lemma RequestInjective(c: Call, d: Call)
    requires Request(c) == Request(d)
    ensures c == d
  {
    RequestUnderstood(Request(c), c);
    RequestUnderstood(Request(d), d);
  }

  /** In every run, what a handler has read for its j-th answer is the j-th call, arguments included. */
  lemma HeardAsIssued(events: seq<Event>, t: System, j: nat)
    requires Runs(QUIET, events, t) && (forall k :: 0 <= k < |events| ==> Succeeds(events[k])) && j < |t.handled|
    ensures |t.heard| == |t.handled| <= |t.issued| && Understood(t.heard[j]) == Some(t.issued[j])
  {
    InvReached(events, t);
    hide Request, Understood, StreamOk, ReplyOk, ReturnedOk;
    RequestUnderstood(t.heard[j], t.issued[j]);
  }

  // ----- Calls come to an end

  /** How far a run can go on without a new call: packets to write, to be read, to be answered with, to be received. */
  function Remaining(s: System): (nat, nat, nat, nat) {
    (|Unsent(s)|, |s.toHandler|, |Rest(s)|, |s.toClient|)
  }

  predicate Fewer(m: (nat, nat, nat, nat), n: (nat, nat, nat, nat)) {
    || m.0 < n.0
    || (m.0 == n.0 && m.1 < n.1)
    || (m.0 == n.0 && m.1 == n.1 && m.2 < n.2)
    || (m.0 == n.0 && m.1 == n.1 && m.2 == n.2 && m.3 < n.3)
  }

  /** Every read and every write brings the run nearer to its end. */
  lemma StepsUsedUp(s: System, e: Event)
    requires Enabled(s, e) && !e.Begin?
    ensures Fewer(Remaining(Step(s, e)), Remaining(s))
  {
    hide ClientDone, ClientExpects, HandlerExpects, MayReply, Request;
  }

  /** A reply that the handler of a command may compute and that reports no failure. */
  function SomeReply(c: Command): (r: seq<Packet>)
    ensures MayReply(c, r) && Succeeds(HandlerReads(r))
  {
    match c
    case MsrDebug => []
    case MsrStatic => [StaticMsr(0, 0, 0)]
    case MsrDynamic => [DynamicMsr(0, 0)]
    case Dmidecode => [Int(0), Cpu([]), Board([]), Bios([]), StickCount(0)]
    case _ => [Int(0)]
  }

  /** Nothing is left to do: the client is idle, the handler waits, and nothing is under way. */
  predicate AtRest(s: System) {
    s.client == Idle && s.handler == Top && s.toHandler == [] && s.toClient == []
  }

  /** A state of a successful run that is not at rest can go on without a new call. */
  lemma NoDeadlock(s: System) returns (e: Event)
    requires Inv(s) && !AtRest(s)
    ensures Enabled(s, e) && !e.Begin? && Succeeds(e)
  {
    hide GoodReply, MayReply, Request, Requests, HandledOk, ClientDone, ClientExpects, HandlerExpects;
    if s.client.Sending? {
      e := ClientWrites;
    } else if s.client.Receiving? && s.toClient != [] {
      e := ClientReads;
    } else if s.handler.Replying? {
      e := HandlerWrites;
    } else {
      if s.toHandler == [] {
        NothingWritten(s);
        if s.client.Receiving? {
          NotWaitingInVain(s);
        }
      }
      e := HandlerReads(if Completes(s).Some? then SomeReply(Completes(s).value) else []);
      if Completes(s).Some? {
        ReplyFits(Completes(s).value);
      }
    }
  }

  /** A client that waits has not read its whole reply, so some of it is under way or still to be computed. */
  lemma NotWaitingInVain(s: System)
    requires Inv(s) && s.client.Receiving? && s.toClient == [] && Rest(s) == []
    ensures |s.handled| < |s.issued|
  {
    hide MayReply, Request, Requests, StreamOk, ClientDone;
    if |s.handled| == |s.issued| {
      var c, got, m := s.client.call, s.client.got, |s.returned|;
      assert got + [] + [] == s.handled[m];
      NotDebug(c, got);
      ReplyShape(c, s.handled[m], got);
    }
  }

  lemma ReplyFits(c: Command)
    ensures MayReply(c, SomeReply(c)) && Succeeds(HandlerReads(SomeReply(c)))
  {
  }

  /** With nothing written to it, a handler that does not reply has answered everything. */
  lemma NothingWritten(s: System)
    requires StreamOk(s) && s.toHandler == [] && !s.client.Sending? && !s.handler.Replying?
    ensures s.handler != HandlerLost ==> !s.handler.Reading? && |s.handled| == |s.issued|
  {
    hide Requests, Request;
    if |s.handled| < |s.issued| {
      DueFirst(s);
    } else {
      NothingDue(s);
    }
  }

  /**
   From every state that a successful run can come to, the calls that have begun can all be
   completed without a new one: each returns with the reply computed for it, and both sides rest.
   */
  lemma {:induction false} CallsComplete(s: System) returns (events: seq<Event>, t: System)
    requires Inv(s)
    ensures Runs(s, events, t) && Inv(t) && AtRest(t)
    ensures forall k :: 0 <= k < |events| ==> Succeeds(events[k]) && !events[k].Begin?
    ensures t.issued == s.issued && s.handled <= t.handled
    decreases Remaining(s).0, Remaining(s).1, Remaining(s).2, Remaining(s).3
  {
    hide Inv, Step, Enabled, Succeeds, Remaining;
    if AtRest(s) {
      events, t := [], s;
      RunsNone(s);
    } else {
      var e := NoDeadlock(s);
      StepsUsedUp(s, e);
      StepKeepsInv(s, e);
      NothingIssued(s, e);
      events, t := CallsComplete(Step(s, e));
      RunsStep(s, e, events, t);
      events := [e] + events;
    }
  }

  lemma NothingIssued(s: System, e: Event)
    requires Enabled(s, e) && !e.Begin?
    ensures Step(s, e).issued == s.issued && s.handled <= Step(s, e).handled
  {
  }

  /** What a state at rest means for the calls. */
  lemma RestMeans(s: System)
    requires Inv(s) && AtRest(s)
    ensures |s.handled| == |s.returned| == |s.issued|
    ensures forall j :: 0 <= j < |s.issued| ==> s.returned[j] == Exchange(s.issued[j], s.handled[j])
  {
    hide GoodReply, MayReply, Request, Requests, HandledOk;
    NothingWritten(s);
  }

  /** A call that is begun in a successful run can return, with the reply that is computed for it. */
  lemma EveryCallCanReturn(events: seq<Event>, s: System) returns (more: seq<Event>, t: System)
    requires Runs(QUIET, events, s) && forall k :: 0 <= k < |events| ==> Succeeds(events[k])
    ensures Runs(s, more, t) && forall k :: 0 <= k < |more| ==> !more[k].Begin?
    ensures t.issued == s.issued && |t.handled| == |t.returned| == |t.issued|
    ensures forall j :: 0 <= j < |t.issued| ==> t.returned[j] == Exchange(t.issued[j], t.handled[j])
  {
    InvReached(events, s);
    hide Inv, Runs;
    more, t := CallsComplete(s);
    RestMeans(t);
  }

  // ----- A failure of the table decoder

  lemma RunsStep(s: System, e: Event, events: seq<Event>, t: System)
    requires Enabled(s, e) && Runs(Step(s, e), events, t)
    ensures Runs(s, [e] + events, t)
  {
    hide Enabled, Step;
    assert ([e] + events)[1..] == events;
  }

  lemma RunsNone(s: System)
    ensures Runs(s, [], s)
  {
  }

  /** A client that sends a request while a packet of another kind is under way to it is lost. */
  lemma {:induction false} SendThenLost(s: System) returns (events: seq<Event>, t: System)
    requires s.client.Sending? && s.client.unsent != [] && !s.client.call.CallDebug?
    requires s.toClient != [] && !ClientExpects(s.client.call, [], s.toClient[0])
    ensures Runs(s, events, t) && t.client == ClientLost && t.issued == s.issued
    ensures forall k :: 0 <= k < |events| ==> !events[k].HandlerReads?
    decreases |s.client.unsent|
  {
    var m := Step(s, ClientWrites);
    if |s.client.unsent| > 1 {
      events, t := SendThenLost(m);
    } else {
      t := Step(m, ClientReads);
      events := [ClientReads];
      RunsNone(t);
      RunsStep(m, ClientReads, [], t);
      assert [ClientReads] + [] == events;
    }
    RunsStep(s, ClientWrites, events, t);
    events := [ClientWrites] + events;
  }

  /** The handler has begun a failed reply, the client has read the return code and left. */
  function AfterFailure(reply: seq<Packet>): System
    requires |reply| > 2
  {
    System(Idle, Replying(reply[2..]), [], [reply[1]], [CallDmidecode], [Exchange(CallDmidecode, [reply[0]])], [reply],
           [[Cmd(Dmidecode)]])
  }

  /** The handler has computed a reply that the client waits for. */
  function Answered(reply: seq<Packet>): System {
    System(Receiving(CallDmidecode, []), Replying(reply), [], [], [CallDmidecode], [], [reply], [[Cmd(Dmidecode)]])
  }

  lemma RunsThree(s: System, a: Event, m: System, b: Event, n: System, c: Event, t: System)
    requires Enabled(s, a) && Step(s, a) == m && Enabled(m, b) && Step(m, b) == n && Enabled(n, c) && Step(n, c) == t
    ensures Runs(s, [a, b, c], t)
  {
    hide Enabled, Step;
    assert [c][1..] == [] && [b, c][1..] == [c] && [a, b, c][1..] == [b, c];
    assert Runs(t, [], t) && Runs(n, [c], t) && Runs(m, [b, c], t);
  }

  lemma AnswerRun(reply: seq<Packet>)
    requires MayReply(Dmidecode, reply)
    ensures Runs(QUIET, [Begin(CallDmidecode), ClientWrites, HandlerReads(reply)], Answered(reply))
  {
    var s1 := Step(QUIET, Begin(CallDmidecode));
    var s2 := Step(s1, ClientWrites);
    assert s2 == System(Receiving(CallDmidecode, []), Top, [Cmd(Dmidecode)], [], [CallDmidecode], [], [], []);
    assert [Cmd(Dmidecode)] + [] == [Cmd(Dmidecode)];
    assert Step(s2, HandlerReads(reply)) == Answered(reply);
    RunsThree(QUIET, Begin(CallDmidecode), s1, ClientWrites, s2, HandlerReads(reply), Answered(reply));
  }

  lemma LeavingRun(reply: seq<Packet>)
    requires |reply| > 2 && reply[0].Int? && reply[0].v != 0
    ensures Runs(Answered(reply), [HandlerWrites, ClientReads, HandlerWrites], AfterFailure(reply))
  {
    var s3 := Answered(reply);
    var s4 := Step(s3, HandlerWrites);
    assert s4 == s3.(handler := Replying(reply[1..]), toClient := [reply[0]]);
    var s5 := Step(s4, ClientReads);
    assert [] + [reply[0]] == [reply[0]];
    assert s5 == s4.(client := Idle, toClient := [], returned := [Exchange(CallDmidecode, [reply[0]])]);
    assert reply[1..][1..] == reply[2..];
    assert Step(s5, HandlerWrites) == AfterFailure(reply);
    RunsThree(s3, HandlerWrites, s4, ClientReads, s5, HandlerWrites, AfterFailure(reply));
  }

  /** The events that lead there. */
  function FailedCall(reply: seq<Packet>): seq<Event> {
    [Begin(CallDmidecode), ClientWrites, HandlerReads(reply)] + [HandlerWrites, ClientReads, HandlerWrites]
  }

  lemma FailureRun(reply: seq<Packet>)
    requires MayReply(Dmidecode, reply) && reply[0].v != 0
    ensures Runs(QUIET, FailedCall(reply), AfterFailure(reply))
  {
    hide Runs;
    AnswerRun(reply);
    LeavingRun(reply);
    RunsConcat(QUIET, [Begin(CallDmidecode), ClientWrites, HandlerReads(reply)], Answered(reply),
               [HandlerWrites, ClientReads, HandlerWrites], AfterFailure(reply));
  }

  lemma {:induction false} RunsConcat(s: System, xs: seq<Event>, m: System, ys: seq<Event>, t: System)
    requires Runs(s, xs, m) && Runs(m, ys, t)
    ensures Runs(s, xs + ys, t)
    decreases |xs|
  {
    hide Enabled, Step;
    if xs == [] {
      assert xs + ys == ys;
    } else {
      RunsConcat(Step(s, xs[0]), xs[1..], m, ys, t);
      assert (xs + ys)[1..] == xs[1..] + ys;
    }
  }

  /** After any failed reply, any next call that waits for an answer can find a packet it does not expect. */
  lemma FailureLosesClient(reply: seq<Packet>, c: Call) returns (events: seq<Event>, t: System)
    requires MayReply(Dmidecode, reply) && reply[0].v != 0 && !c.CallDebug?
    ensures Runs(QUIET, events, t) && t.client == ClientLost && OnlyReply(events, reply)
    ensures t.issued == [CallDmidecode, c]
  {
    var s := AfterFailure(reply);
    FailureRun(reply);
    var m := Step(s, Begin(c));
    assert !ClientExpects(c, [], reply[1]);
    events, t := SendThenLost(m);
    RunsStep(s, Begin(c), events, t);
    RunsConcat(QUIET, FailedCall(reply), s, [Begin(c)] + events, t);
    events := FailedCall(reply) + ([Begin(c)] + events);
  }

  /** Whenever a handler computes something that looks like an answer of the table decoder, it is this one. */
  predicate OnlyReply(events: seq<Event>, reply: seq<Packet>) {
    forall k :: 0 <= k < |events| && events[k].HandlerReads? && |events[k].reply| >= 5 && events[k].reply[0].Int? ==>
      events[k].reply == reply
  }

  /** With one and the same answer of the table decoder, some run loses the client exactly if it reports a failure. */
  lemma LostIff(reply: seq<Packet>)
    requires MayReply(Dmidecode, reply)
    ensures (exists events, t :: Runs(QUIET, events, t) && OnlyReply(events, reply) && t.client == ClientLost)
      <==> reply[0].v != 0
  {
    if reply[0].v != 0 {
      var events, t := FailureLosesClient(reply, CallDevPci);
    } else {
      forall events, t | Runs(QUIET, events, t) && OnlyReply(events, reply)
        ensures t.client != ClientLost
      {
        Lockstep(events, t);
      }
    }
  }

  // ----- The memory sticks that reach the client

  predicate Complete(x: Exchange) {
    x.call == CallDmidecode && MayReply(Dmidecode, x.reply)
  }

  /** The sticks of a complete reply of the table decoder. */
  function StickList(reply: seq<Packet>): seq<StickData>
    requires MayReply(Dmidecode, reply)
  {
    seq(|reply| - 5, k requires 0 <= k < |reply| - 5 => reply[5 + k].stick)
  }

  /** The list of a client that starts empty, after the calls that have returned. */
  function ClientList(returned: seq<Exchange>, translate: Translation): seq<Shown> {
    if returned == [] then []
    else
      var was, x := ClientList(returned[..|returned| - 1], translate), returned[|returned| - 1];
      if Complete(x) then Received(was, StickList(x.reply), translate) else was
  }

  lemma {:induction false} OtherCallsKeep(before: seq<Exchange>, others: seq<Exchange>, translate: Translation)
    requires forall x <- others :: x.call != CallDmidecode
    ensures ClientList(before + others, translate) == ClientList(before, translate)
    decreases |others|
  {
    if others == [] {
      assert before + others == before;
    } else {
      var n := |others| - 1;
      OtherCallsKeep(before, others[..n], translate);
      assert (before + others)[..|before + others| - 1] == before + others[..n];
    }
  }

  /** The last table decoder call alone makes the list what it is. */
  lemma LastCallCounts(returned: seq<Exchange>, j: nat, translate: Translation)
    requires j < |returned| && Complete(returned[j])
    requires forall k :: j < k < |returned| ==> returned[k].call != CallDmidecode
    ensures MayReply(Dmidecode, returned[j].reply)
    ensures ClientList(returned, translate) ==
      Received(ClientList(returned[..j], translate), StickList(returned[j].reply), translate)
  {
    hide MayReply, StickList, Received;
    var front := returned[..j + 1];
    assert front + returned[j + 1..] == returned;
    OtherCallsKeep(front, returned[j + 1..], translate);
    assert front[..|front| - 1] == returned[..j];
  }

  /** How a list looks after the last table decoder call, when the daemon has sent what it reports for some devices. */
  lemma ListedAfter(returned: seq<Exchange>, j: nat, devices: seq<StickData>, translate: Translation)
    requires j < |returned| && Complete(returned[j])
    requires forall k :: j < k < |returned| ==> returned[k].call != CallDmidecode
    requires StickList(returned[j].reply) == Reported(devices)
    ensures var was, listed := ClientList(returned[..j], translate), ClientList(returned, translate);
      && (was == [] ==> (listed == Fresh(devices, translate) <==> |devices| < 256))
      && (|devices| < 256 ==> (listed == Fresh(devices, translate) <==> was == []))
  {
    hide *;
    LastCallCounts(returned, j, translate);
    var was, sent := ClientList(returned[..j], translate), Reported(devices);
    ListFreshIff(was, sent, translate);
    ReportedAllIff(devices);
    FreshLength(devices, translate);
    FreshLength(sent, translate);
  }

  lemma FreshLength(messages: seq<StickData>, translate: Translation)
    ensures |Fresh(messages, translate)| == |messages|
  {
  }

  /**
   When the only table decoder call of a run was answered for a list of devices, then between
   calls the client lists these devices, in order and with fresh texts, exactly if there are
   fewer than 256 of them.
   */
  lemma DevicesListedIff(events: seq<Event>, t: System, j: nat, devices: seq<StickData>, translate: Translation)
    requires Runs(QUIET, events, t) && forall k :: 0 <= k < |events| ==> Succeeds(events[k])
    requires t.client == Idle && j < |t.issued|
    requires forall k :: 0 <= k < |t.issued| ==> (t.issued[k] == CallDmidecode <==> k == j)
    ensures |t.returned| == |t.issued| && j < |t.handled| && MayReply(Dmidecode, t.handled[j])
    ensures StickList(t.handled[j]) == Reported(devices) ==>
      (ClientList(t.returned, translate) == Fresh(devices, translate) <==> |devices| < 256)
  {
    LaterCallListed(events, t, j, devices, translate);
    Lockstep(events, t);
    hide Runs, StickList, ClientList, Fresh, Reported, MayReply;
    OtherCallsKeep([], t.returned[..j], translate);
    assert [] + t.returned[..j] == t.returned[..j];
    EmptyList(translate);
  }

  /**
   The same for the last of several table decoder calls, of which the program makes only one:
   the list also has to be empty before that call.
   */
  lemma LaterCallListed(events: seq<Event>, t: System, j: nat, devices: seq<StickData>, translate: Translation)
    requires Runs(QUIET, events, t) && forall k :: 0 <= k < |events| ==> Succeeds(events[k])
    requires t.client == Idle && j < |t.issued| && t.issued[j] == CallDmidecode
    requires forall k :: j < k < |t.issued| ==> t.issued[k] != CallDmidecode
    ensures |t.returned| == |t.issued| && j < |t.handled| && MayReply(Dmidecode, t.handled[j])
    ensures StickList(t.handled[j]) == Reported(devices) ==>
      var was, listed := ClientList(t.returned[..j], translate), ClientList(t.returned, translate);
      && (was == [] ==> (listed == Fresh(devices, translate) <==> |devices| < 256))
      && (|devices| < 256 ==> (listed == Fresh(devices, translate) <==> was == []))
  {
    Lockstep(events, t);
    hide Runs, StickList, ClientList, Fresh, Reported, MayReply;
    assert t.issued[j] == CallDmidecode && j < |t.handled|;
    HandledReply(events, t, j);
    assert t.returned[j] == Exchange(CallDmidecode, t.handled[j]);
    if StickList(t.handled[j]) == Reported(devices) {
      ListedAfter(t.returned, j, devices, translate);
    }
  }

  lemma EmptyList(translate: Translation)
    ensures ClientList([], translate) == []
  {
  }

  /** The reply of a table decoder that has succeeded. */
  function DecoderReply(sticks: seq<StickData>): (r: seq<Packet>)
    requires |sticks| < 256
    ensures MayReply(Dmidecode, r) && r[0] == Int(0) && StickList(r) == sticks
  {
    [Int(0), Cpu([]), Board([]), Bios([]), StickCount(|sticks|)]
    + seq(|sticks|, k requires 0 <= k < |sticks| => Stick(sticks[k]))
  }

  /** The first call of the client can return with any successful reply of the table decoder. */
  lemma DecoderCallReturns(reply: seq<Packet>) returns (events: seq<Event>, t: System)
    requires MayReply(Dmidecode, reply) && reply[0].v == 0
    ensures Runs(QUIET, events, t) && AtRest(t) && t.issued == [CallDmidecode]
    ensures forall k :: 0 <= k < |events| ==> Succeeds(events[k])
    ensures t.returned == [Exchange(CallDmidecode, reply)]
  {
    var before := [Begin(CallDmidecode), ClientWrites, HandlerReads(reply)];
    AnswerRun(reply);
    hide Runs, Inv, MayReply, AtRest, GoodReply;
    InvReached(before, Answered(reply));
    var more;
    more, t := CallsComplete(Answered(reply));
    RestMeans(t);
    RunsConcat(QUIET, before, Answered(reply), more, t);
    events := before + more;
  }

  lemma OneCallListed(reply: seq<Packet>, translate: Translation)
    requires MayReply(Dmidecode, reply)
    ensures ClientList([Exchange(CallDmidecode, reply)], translate) == Fresh(StickList(reply), translate)
  {
    hide StickList, ClientList, Fresh, MayReply, Received;
    LastCallCounts([Exchange(CallDmidecode, reply)], 0, translate);
    EmptyList(translate);
    ListFreshIff([], StickList(reply), translate);
  }

  /** Whatever the decoder reports for the devices it found can come to the client, and is what the client lists then. */
  lemma DevicesArrive(devices: seq<StickData>, translate: Translation) returns (events: seq<Event>, t: System)
    ensures Runs(QUIET, events, t) && AtRest(t) && t.issued == [CallDmidecode]
    ensures forall k :: 0 <= k < |events| ==> Succeeds(events[k])
    ensures ClientList(t.returned, translate) == Fresh(Reported(devices), translate)
  {
    hide *;
    ReportedAllIff(devices);
    var reply := DecoderReply(Reported(devices));
    events, t := DecoderCallReturns(reply);
    OneCallListed(reply, translate);
  }

  lemma HandledReply(events: seq<Event>, t: System, j: nat)
    requires Runs(QUIET, events, t) && forall k :: 0 <= k < |events| ==> Succeeds(events[k])
    requires j < |t.handled|
    ensures j < |t.issued| && MayReply(CommandOf(t.issued[j]), t.handled[j])
  {
    InvReached(events, t);
    hide StreamOk, ReplyOk, ReturnedOk;
    assert GoodReply(t.issued[j], t.handled[j]);
  }
}
