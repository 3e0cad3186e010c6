/** Requests and replies: checking arguments, dispatching, answering. */
module Messages {
  import opened Basics
  import opened Endian

  type Frame = seq<byte>

  const OPCODE_SIZE := 4
  const OPCODE_MAX := 200
  const PARAM_OK := 0
  const PARAM_ERR := 1

  datatype Err = Success | LessArgs | MoreArgs | SizeArg

  /** A multi-frame message with the cursor that peeking moves. */
  class Message {
    var frames: seq<Frame>
    var cursor: nat

    constructor (frames: seq<Frame>)
      ensures this.frames == frames && cursor == 0
    {
      this.frames, cursor := frames, 0;
    }

    /** The frame under the cursor, if any. */
    predicate Present()
      reads this
    {
      cursor < |frames|
    }

    method First()
      modifies this`cursor
      ensures cursor == 0
    {
      cursor := 0;
    }

    method Next()
      modifies this`cursor
      ensures cursor == old(cursor) + 1
    {
      cursor := cursor + 1;
    }
  }

  // Argument descriptors: one word each, type in the top byte, ended by a zero word.

  const ATYPE_VAR := 10
  const ARG_END := 0

  function ArgType(word: u32): nat { word / 0x100_0000 }
  function ArgSize(word: u32): nat { word % 0x100_0000 }

  /** The words before the end marker. */
  function Described(args: seq<u32>): (d: seq<u32>)
    ensures |d| <= |args| && d == args[..|d|] && ARG_END !in d
    ensures |d| < |args| ==> args[|d|] == ARG_END
  {
    if args == [] || args[0] == ARG_END then [] else [args[0]] + Described(args[1..])
  }

  /** A frame suits a descriptor if it has its size, or at most that if it varies. */
  predicate Suits(word: u32, frame: Frame) {
    |frame| <= ArgSize(word) && (ArgType(word) == ATYPE_VAR || |frame| == ArgSize(word))
  }

  predicate AllSuit(words: seq<u32>, frames: seq<Frame>) {
    |frames| == |words| && forall i | 0 <= i < |words| :: Suits(words[i], frames[i])
  }

  /** The first frame that does not suit, before either side runs out. */
  ghost predicate FirstUnsuited(words: seq<u32>, frames: seq<Frame>, i: int) {
    && 0 <= i < |words| && i < |frames| && !Suits(words[i], frames[i])
    && forall j | 0 <= j < i :: Suits(words[j], frames[j])
  }

  ghost predicate SuitWhilePaired(words: seq<u32>, frames: seq<Frame>) {
    forall i | 0 <= i < |words| && i < |frames| :: Suits(words[i], frames[i])
  }

  /** Check a message against the descriptor of the operation it asks for. */
  method CheckArgs(args: seq<u32>, msg: Message) returns (err: Err)
    requires ARG_END in args
    modifies msg`cursor
    ensures msg.cursor == 0
    ensures err == Success <==> AllSuit(Described(args), msg.frames)
    ensures err == SizeArg <==> exists i :: FirstUnsuited(Described(args), msg.frames, i)
    ensures err == LessArgs <==> SuitWhilePaired(Described(args), msg.frames) && |msg.frames| < |Described(args)|
    ensures err == MoreArgs <==> SuitWhilePaired(Described(args), msg.frames) && |msg.frames| > |Described(args)|
  {
    ghost var words := Described(args);
    hide Described, Suits;
    err := Success;
    msg.First();
    var i := 0;
    while i < |args| && args[i] != ARG_END
      invariant 0 <= i <= |words| && msg.cursor == i <= |msg.frames|
      invariant forall j | 0 <= j < i :: Suits(words[j], msg.frames[j])
      decreases |args| - i
    {
      assert i < |words| && words[i] == args[i];
      if !msg.Present() {
        msg.First();
        return LessArgs;
      }
      if !FrameFits(args[i], msg.frames[msg.cursor]) {
        SuitsIs(args[i], msg.frames[i]);
        assert FirstUnsuited(words, msg.frames, i);
        msg.First();
        return SizeArg;
      }
      SuitsIs(args[i], msg.frames[i]);
      msg.Next();
      i := i + 1;
    }
    assert i == |words|;
    if msg.Present() {
      err := MoreArgs;
    }
    msg.First();
  }

  /** The test as it is written. */
  predicate FrameFits(word: u32, frame: Frame) {
    !(|frame| > ArgSize(word) || (ArgType(word) != ATYPE_VAR && |frame| != ArgSize(word)))
  }

  lemma SuitsIs(word: u32, frame: Frame)
    ensures FrameFits(word, frame) <==> Suits(word, frame)
  {
  }

  /** In numbers: the low three bytes of the word are the size, and a top byte of ten lets
  the frame be shorter. */
  lemma SuitsIff(word: u32, frame: Frame)
    ensures Suits(word, frame) <==>
      |frame| == word % 0x100_0000 || (word / 0x100_0000 == 10 && |frame| < word % 0x100_0000)
  {
  }

  // Dispatching.

  /** What an operation did: its return value and the bytes in its return buffer. */
  datatype Outcome<+S> = Outcome(state: S, ret: int, data: seq<byte>)

  /** The operations of a server, by opcode, with the arguments each one takes. */
  datatype Service<!S> = Service(table: map<int, seq<u32>>, call: (S, int, seq<Frame>) -> Outcome<S>)

  /** The opcode a request starts with: one word, below the limit. */
  function Opcode(req: seq<Frame>): Option<int> {
    if req == [] || |req[0]| != OPCODE_SIZE then None
    else if NatLE(req[0]) >= OPCODE_MAX then None
    else Some(NatLE(req[0]))
  }

  /** An unknown opcode or unsuitable arguments answer -1 and do nothing. */
  function CheckCall<S>(sv: Service<S>, s: S, op: int, args: seq<Frame>): Outcome<S> {
    if op in sv.table && AllSuit(Described(sv.table[op]), args) then sv.call(s, op, args)
    else Outcome(s, -1, [])
  }

  function Buffer(data: seq<byte>, n: nat): (b: seq<byte>)
    ensures |b| == n
  {
    seq<byte>(n, i => if 0 <= i < |data| then data[i] else 0)
  }

  /** A positive count is sent with its data; anything else is a bare code. */
  function Format(ret: int, data: seq<byte>): seq<Frame> {
    if ret > 0 then [BytesLE(PARAM_OK, 4), BytesLE(ret, 4), Buffer(data, ret)]
    else [BytesLE(-ret, 4)]
  }

  function Handle<S>(sv: Service<S>, s: S, req: seq<Frame>): (S, seq<Frame>) {
    match Opcode(req)
    case None => (s, [BytesLE(PARAM_ERR, 4)])
    case Some(op) =>
      var o := CheckCall(sv, s, op, req[1..]);
      (o.state, Format(o.ret, o.data))
  }

  function After<S>(sv: Service<S>, s: S, reqs: seq<seq<Frame>>): S
    decreases |reqs|
  {
    if reqs == [] then s else After(sv, Handle(sv, s, reqs[0]).0, reqs[1..])
  }

  function Replies<S>(sv: Service<S>, s: S, reqs: seq<seq<Frame>>): (rs: seq<seq<Frame>>)
    ensures |rs| == |reqs|
    decreases |reqs|
  {
    if reqs == [] then []
    else
      var (t, reply) := Handle(sv, s, reqs[0]);
      [reply] + Replies(sv, t, reqs[1..])
  }

  /** One reply per request, in order: the k-th answers the k-th request, asked of
  the state the earlier ones left. */
  lemma {:induction false} KthReply<S>(sv: Service<S>, s: S, reqs: seq<seq<Frame>>, k: nat)
    requires k < |reqs|
    ensures Replies(sv, s, reqs)[k] == Handle(sv, After(sv, s, reqs[..k]), reqs[k]).1
    decreases |reqs|
  {
    hide Handle;
    if k > 0 {
      KthReply(sv, Handle(sv, s, reqs[0]).0, reqs[1..], k - 1);
      assert reqs[..k][1..] == reqs[1..][..k - 1];
    }
  }

  /** A request that no operation is called for: its first frame is no opcode below 200, or
  no operation has that opcode, or the other frames do not suit it. */
  predicate Rejected<S>(sv: Service<S>, req: seq<Frame>) {
    || req == [] || |req[0]| != 4 || NatLE(req[0]) >= 200 || NatLE(req[0]) !in sv.table
    || !AllSuit(Described(sv.table[NatLE(req[0])]), req[1..])
  }

  lemma CodeFrame(code: nat)
    requires code < 256
    ensures BytesLE(code, 4) == [code, 0, 0, 0]
  {
    assert BytesLE(0, 1) == [0] && BytesLE(0, 2) == [0, 0] && BytesLE(0, 3) == [0, 0, 0];
  }

  /** Such a request changes nothing and is answered by one frame that holds 1. */
  lemma RejectedReply<S>(sv: Service<S>, s: S, req: seq<Frame>)
    requires Rejected(sv, req)
    ensures Handle(sv, s, req) == (s, [[1, 0, 0, 0]])
  {
    hide BytesLE, NatLE, AllSuit, Described;
    CodeFrame(1);
  }

  /** Any other is answered by three frames (OK, the size, that many bytes of the data) if
  the operation returned a positive count, and by a single code frame otherwise. */
  lemma ReplyShape<S>(sv: Service<S>, s: S, req: seq<Frame>)
    requires !Rejected(sv, req)
    ensures var (t, reply) := Handle(sv, s, req);
      var o := sv.call(s, NatLE(req[0]), req[1..]);
      && t == o.state
      && (0 < o.ret < TWO32 ==>
          && |reply| == 3 && reply[0] == [0, 0, 0, 0] && |reply[1]| == 4 && NatLE(reply[1]) == o.ret == |reply[2]|
          && forall i | 0 <= i < o.ret :: reply[2][i] == if i < |o.data| then o.data[i] else 0)
      && (-TWO32 < o.ret <= 0 ==> |reply| == 1 && |reply[0]| == 4 && NatLE(reply[0]) == -o.ret)
  {
    hide BytesLE, NatLE, AllSuit, Described;
    Pow256Widths();
    CodeFrame(0);
    var ret := sv.call(s, NatLE(req[0]), req[1..]).ret;
    if 0 < ret < TWO32 {
      NatBytesLE(ret, 4);
    } else if -TWO32 < ret <= 0 {
      NatBytesLE(-ret, 4);
    }
  }

  /** One message pipe of the reactor, and the state its operations work on. */
  class Pipe<S> {
    const service: Service<S>
    var state: S
    var inbox: seq<seq<Frame>>
    var outbox: seq<seq<Frame>>

    constructor (service: Service<S>, state: S, inbox: seq<seq<Frame>>)
      ensures this.service == service && this.state == state && this.inbox == inbox && outbox == []
    {
      this.service, this.state, this.inbox, outbox := service, state, inbox, [];
    }

    /** Serve one request and send its reply back. */
    method HandleRequest(req: seq<Frame>)
      requires forall op | op in service.table :: ARG_END in service.table[op]
      modifies this`state, this`outbox
      ensures var (s, reply) := Handle(service, old(state), req); state == s && outbox == old(outbox) + [reply]
    {
      hide Described, AllSuit, Format;
      if req == [] || |req[0]| != OPCODE_SIZE {
        outbox := outbox + [[BytesLE(PARAM_ERR, 4)]];
        return;
      }
      var op := NatLE(req[0]);
      if op >= OPCODE_MAX {
        outbox := outbox + [[BytesLE(PARAM_ERR, 4)]];
        return;
      }
      var ret, data := -1, [];
      if op in service.table {
        var msg := new Message(req[1..]);
        var err := CheckArgs(service.table[op], msg);
        if err == Success {
          var o := service.call(state, op, req[1..]);
          state, ret, data := o.state, o.ret, o.data;
        }
      }
      outbox := outbox + [Format(ret, data)];
    }

    /** Process as many messages as there are. */
    method Drain()
      requires forall op | op in service.table :: ARG_END in service.table[op]
      modifies this`state, this`inbox, this`outbox
      ensures inbox == []
      ensures state == After(service, old(state), old(inbox))
      ensures outbox == old(outbox) + Replies(service, old(state), old(inbox))
    {
      hide Handle;
      while inbox != []
        invariant After(service, state, inbox) == After(service, old(state), old(inbox))
        invariant outbox + Replies(service, state, inbox) == old(outbox) + Replies(service, old(state), old(inbox))
        decreases |inbox|
      {
        var req := inbox[0];
        inbox := inbox[1..];
        HandleRequest(req);
      }
    }
  }
}
