/** The part of Go's `net/http` `ResponseWriter` the news handlers rely on, together with
    `json.NewEncoder(w).Encode`. The status line is committed by the first `WriteHeader`
    call or, failing that, by the first body write, which commits 200; every later
    `WriteHeader` call has no effect. A response that was never committed goes out with 200
    when the handler returns. */
module ResponseWriter {
  import opened Wrappers
  import opened NewsModels

  const StatusOK: int := 200
  const StatusBadRequest: int := 400

  /** What became of one `Encode` call: the envelope was written; it could not be
      marshalled (nothing reaches the writer); or the write to the connection failed
      (the writer had already committed the status before the bytes were lost). */
  datatype EncodeOutcome = Encoded | MarshalFailed(msg: string) | WriteFailed(msg: string)

  /** One call a handler makes on the response writer. */
  datatype Action = EncodeCall(env: Envelope, outcome: EncodeOutcome) | WriteHeaderCall(code: int)

  /** The writer's state: whether the status is committed, the committed status, and the
      envelopes written completely to the body, in order. */
  datatype WriterState = WriterState(headerWritten: bool, status: int, body: seq<Envelope>)

  /** A writer on which nothing has been called yet. */
  const Fresh: WriterState := WriterState(false, 0, [])

  /** The status the client receives once the handler has returned. */
  function FinalStatus(s: WriterState): int {
    if s.headerWritten then s.status else StatusOK
  }

  /** The error `Encode` returns for an outcome. */
  function EncodeError(outcome: EncodeOutcome): Option<string> {
    match outcome
    case Encoded => None
    case MarshalFailed(msg) => Some(msg)
    case WriteFailed(msg) => Some(msg)
  }

  /** Commits `code` unless a status is committed already. */
  function Commit(s: WriterState, code: int): WriterState {
    if s.headerWritten then s else s.(headerWritten := true, status := code)
  }

  /** The effect of one call on the writer. */
  function Step(s: WriterState, a: Action): WriterState {
    match a
    case WriteHeaderCall(code) => Commit(s, code)
    case EncodeCall(env, outcome) =>
      match outcome
      case Encoded => Commit(s, StatusOK).(body := s.body + [env])
      case MarshalFailed(_) => s
      case WriteFailed(_) => Commit(s, StatusOK)
  }

  /** The effect of a sequence of calls, first to last. */
  function Run(s: WriterState, acts: seq<Action>): WriterState
    decreases |acts|
  {
    if acts == [] then s else Run(Step(s, acts[0]), acts[1..])
  }

  /** The envelopes a sequence of calls asks to encode, in order. */
  function EncodeRequests(acts: seq<Action>): seq<Envelope>
    decreases |acts|
  {
    if acts == [] then []
    else (if acts[0].EncodeCall? then [acts[0].env] else []) + EncodeRequests(acts[1..])
  }

  /** Two calls, spelled out. */
  lemma RunTwo(s: WriterState, a: Action, b: Action)
    ensures Run(s, [a, b]) == Step(Step(s, a), b)
  {
    assert [a, b][1..] == [b];
    assert Run(s, [a, b]) == Run(Step(s, a), [b]);
    assert [b][1..] == [];
    assert Run(Step(s, a), [b]) == Run(Step(Step(s, a), b), []);
  }

  /** Once a status is committed, no sequence of calls changes it. */
  lemma {:induction false} CommitIsFinal(s: WriterState, acts: seq<Action>)
    requires s.headerWritten
    ensures Run(s, acts).headerWritten && Run(s, acts).status == s.status
    ensures FinalStatus(Run(s, acts)) == s.status
    decreases |acts|
  {
    if acts != [] {
      CommitIsFinal(Step(s, acts[0]), acts[1..]);
    }
  }

  /** The body is never retracted: what was written stays a prefix of what is written,
      and it grows by at most one envelope per `Encode` call. */
  lemma {:induction false} BodyOnlyGrows(s: WriterState, acts: seq<Action>)
    ensures s.body <= Run(s, acts).body
    ensures |Run(s, acts).body| <= |s.body| + |EncodeRequests(acts)|
    decreases |acts|
  {
    if acts != [] {
      BodyOnlyGrows(Step(s, acts[0]), acts[1..]);
    }
  }

  /** The response writer object a handler receives. `trace` records every call made on
      it, in order, so that the order of `Encode` and `WriteHeader` can be stated. */
  class Writer {
    var headerWritten: bool
    var status: int
    var body: seq<Envelope>
    var trace: seq<Action>

    /** The abstract state of the writer. */
    function State(): WriterState
      reads this
    {
      WriterState(headerWritten, status, body)
    }

    constructor ()
      ensures State() == Fresh && trace == []
    {
      headerWritten, status, body, trace := false, 0, [], [];
    }

    /** `w.WriteHeader(code)`: commits `code` unless a status is already committed,
        in which case the call is superfluous and has no effect. */
    method WriteHeader(code: int)
      modifies this
      ensures State() == Step(old(State()), WriteHeaderCall(code))
      ensures old(headerWritten) ==> status == old(status)
      ensures headerWritten && body == old(body)
      ensures trace == old(trace) + [WriteHeaderCall(code)]
    {
      if !headerWritten {
        headerWritten := true;
        status := code;
      }
      trace := trace + [WriteHeaderCall(code)];
    }

    /** `json.NewEncoder(w).Encode(env)`, whose fate is `outcome`. A write commits 200
        first when no status was set, even when the write then fails. */
    method Encode(env: Envelope, outcome: EncodeOutcome) returns (err: Option<string>)
      modifies this
      ensures State() == Step(old(State()), EncodeCall(env, outcome))
      ensures err == EncodeError(outcome)
      ensures body == if outcome.Encoded? then old(body) + [env] else old(body)
      ensures trace == old(trace) + [EncodeCall(env, outcome)]
    {
      if !outcome.MarshalFailed? {
        if !headerWritten {
          headerWritten := true;
          status := StatusOK;
        }
        if outcome.Encoded? {
          body := body + [env];
        }
      }
      trace := trace + [EncodeCall(env, outcome)];
      err := EncodeError(outcome);
    }
  }
}
