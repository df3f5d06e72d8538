/** The daemon's command-and-reply table: `handle_command`, `start_recording`
    and `stop_recording` of whisper_daemon.py as a pure transition function over
    the `recording` field and the recording flag file (/tmp/whisper_recording).
    The class in daemon.dfy is proved to follow this table. */
module Control {
  import opened Text

  /** The command words a client may send. */
  datatype Command = Start | Stop | Status | Toggle | Unknown

  /** The single-word replies the daemon writes back. */
  datatype Reply = Recording | AlreadyRecording | NotRecording | Stopped | Ready | UnknownCommand
  {
    /** The reply as it goes over the socket. */
    function Wire(): string {
      match this
      case Recording => "RECORDING"
      case AlreadyRecording => "ALREADY_RECORDING"
      case NotRecording => "NOT_RECORDING"
      case Stopped => "STOPPED"
      case Ready => "READY"
      case UnknownCommand => "UNKNOWN_COMMAND"
    }
  }

  /** What the command table reads and writes: the `recording` field and
      whether the recording flag file exists. */
  datatype Switch = Switch(recording: bool, flag: bool)

  /** The flag file exists exactly while the daemon records. */
  predicate FlagMatches(s: Switch) {
    s.flag == s.recording
  }

  /** The token the daemon matches: `command.strip().upper()`. */
  function Token(raw: string): string {
    Upper(Strip(raw))
  }

  /** The command a request denotes: one of the four words, compared after
      stripping and upper-casing, or Unknown. */
  function Parse(raw: string): (c: Command)
    ensures c == Start <==> Token(raw) == "START"
    ensures c == Stop <==> Token(raw) == "STOP"
    ensures c == Status <==> Token(raw) == "STATUS"
    ensures c == Toggle <==> Token(raw) == "TOGGLE"
  {
    var t := Token(raw);
    if t == "START" then Start
    else if t == "STOP" then Stop
    else if t == "STATUS" then Status
    else if t == "TOGGLE" then Toggle
    else Unknown
  }

  /** `start_recording`: refused while recording, otherwise sets `recording`
      and touches the flag file. */
  function Begin(s: Switch): (r: (Switch, Reply))
    ensures r.0.recording
    ensures r.1 == (if s.recording then AlreadyRecording else Recording)
    ensures s.recording ==> r.0 == s
    ensures !s.recording ==> r.0.flag
  {
    if s.recording then (s, AlreadyRecording) else (Switch(true, true), Recording)
  }

  /** `stop_recording`: refused while idle, otherwise clears `recording` and
      removes the flag file. */
  function End(s: Switch): (r: (Switch, Reply))
    ensures !r.0.recording
    ensures r.1 == (if s.recording then Stopped else NotRecording)
    ensures !s.recording ==> r.0 == s
    ensures s.recording ==> !r.0.flag
  {
    if !s.recording then (s, NotRecording) else (Switch(false, false), Stopped)
  }

  /** The `handle_command` dispatch on a parsed command. The switch either
      stays as it was or flips `recording` with the flag file in step, and it
      flips exactly when the reply is RECORDING or STOPPED from START, STOP or
      TOGGLE. */
  function Dispatch(s: Switch, c: Command): (r: (Switch, Reply))
    ensures r.0 == s || (r.0.recording == !s.recording && FlagMatches(r.0))
    ensures r.0.recording != s.recording <==> r.1 in {Recording, Stopped} && c != Status
    ensures c == Status || c == Unknown ==> r.0 == s
    ensures c == Start ==> r == Begin(s)
    ensures c == Stop ==> r == End(s)
    ensures c == Toggle ==> r == if s.recording then End(s) else Begin(s)
  {
    match c
    case Start => Begin(s)
    case Stop => End(s)
    case Status => (s, if s.recording then Recording else Ready)
    case Toggle => if s.recording then End(s) else Begin(s)
    case Unknown => (s, UnknownCommand)
  }

  /** `handle_command` on the raw request text: it leaves the switch alone
      or flips `recording` with the flag file in step. */
  function Handle(s: Switch, raw: string): (r: (Switch, Reply))
    ensures r.0 == s || (r.0.recording == !s.recording && FlagMatches(r.0))
  {
    Dispatch(s, Parse(raw))
  }

  /** The switch after a series of requests handled one after another: no
      change at all, or a state whose flag file is in step with `recording`. */
  function Run(s: Switch, raws: seq<string>): (r: Switch)
    ensures r == s || FlagMatches(r)
    decreases |raws|
  {
    if raws == [] then s else Run(Handle(s, raws[0]).0, raws[1..])
  }

  /** A command word is its own token. */
  lemma StartToken() ensures Token("START") == "START" {
    StripTrimmed("START");
    UpperKeepsCapitals("START");
  }

  lemma StopToken() ensures Token("STOP") == "STOP" {
    StripTrimmed("STOP");
    UpperKeepsCapitals("STOP");
  }

  lemma StatusToken() ensures Token("STATUS") == "STATUS" {
    StripTrimmed("STATUS");
    UpperKeepsCapitals("STATUS");
  }

  lemma ToggleToken() ensures Token("TOGGLE") == "TOGGLE" {
    StripTrimmed("TOGGLE");
    UpperKeepsCapitals("TOGGLE");
  }

  /** A command word sent as is denotes its command. */
  lemma CommandWords()
    ensures Parse("START") == Start && Parse("STOP") == Stop
    ensures Parse("STATUS") == Status && Parse("TOGGLE") == Toggle
  {
    StartToken();
    StopToken();
    StatusToken();
    ToggleToken();
  }

  /** The reply to a plain STATUS request, as sent over the socket. */
  lemma StatusWire(s: Switch)
    ensures Handle(s, "STATUS").0 == s
    ensures Handle(s, "STATUS").1.Wire() == if s.recording then "RECORDING" else "READY"
  {
    CommandWords();
  }

  /** Surrounding whitespace does not change the command a request denotes. */
  lemma ParseIgnoresPadding(pad1: string, raw: string, pad2: string)
    requires AllSpace(pad1) && AllSpace(pad2)
    ensures Parse(pad1 + raw + pad2) == Parse(raw)
  {
    StripPadded(pad1, raw, pad2);
  }

  /** Requests that differ only in the case of ASCII letters denote the same command. */
  lemma ParseIgnoresCase(a: string, b: string)
    requires AsciiLower(a) == AsciiLower(b)
    ensures Parse(a) == Parse(b)
  {
    StripLower(a);
    StripLower(b);
    UpperIgnoresAsciiCase(Strip(a));
    UpperIgnoresAsciiCase(Strip(b));
  }

  /** Replies that refuse a request (ALREADY_RECORDING, NOT_RECORDING,
      UNKNOWN_COMMAND) and the STATUS replies leave the switch as it was;
      only an accepted start or stop changes it. */
  lemma OnlyAcceptedRequestsChangeState(s: Switch, raw: string)
    ensures Handle(s, raw).0 != s ==>
      (Handle(s, raw).1 == Recording && Parse(raw) in {Start, Toggle})
      || Handle(s, raw).1 == Stopped
    ensures Handle(s, raw).1 in {AlreadyRecording, NotRecording, UnknownCommand, Ready} ==>
      Handle(s, raw).0 == s
  {
  }

  /** STATUS reports the recording field and changes nothing; an unknown
      word is answered with UNKNOWN_COMMAND and changes nothing. */
  lemma StatusAndUnknownAreReadOnly(s: Switch, raw: string)
    ensures Parse(raw) == Status ==> Handle(s, raw) == (s, if s.recording then Recording else Ready)
    ensures Parse(raw) == Unknown ==> Handle(s, raw) == (s, UnknownCommand)
  {
  }

  /** TOGGLE always flips `recording` and answers STOPPED or RECORDING accordingly. */
  lemma ToggleFlips(s: Switch, raw: string)
    requires Parse(raw) == Toggle
    ensures Handle(s, raw).0.recording == !s.recording
    ensures Handle(s, raw).1 == if s.recording then Stopped else Recording
  {
  }

  /** Any request whose handling changes `recording` leaves the flag file in
      step with it, even if the file was stale before. */
  lemma TransitionSetsFlag(s: Switch, raw: string)
    requires Handle(s, raw).0.recording != s.recording
    ensures FlagMatches(Handle(s, raw).0)
  {
  }

  /** One request preserves "flag file exists iff recording". */
  lemma HandleKeepsFlag(s: Switch, raw: string)
    requires FlagMatches(s)
    ensures FlagMatches(Handle(s, raw).0)
  {
  }

  /** "Flag file exists iff recording" holds after any sequence of requests
      that starts from a state where it holds. */
  lemma {:induction false} RunKeepsFlag(s: Switch, raws: seq<string>)
    requires FlagMatches(s)
    ensures FlagMatches(Run(s, raws))
    decreases |raws|
  {
    if raws != [] {
      HandleKeepsFlag(s, raws[0]);
      RunKeepsFlag(Handle(s, raws[0]).0, raws[1..]);
    }
  }

  /** A stale flag file left by an earlier process (flag present, not
      recording) is brought back in step by the first request that changes
      `recording`; from then on the flag follows `recording`. */
  lemma {:induction false} RunRepairsStaleFlag(s: Switch, raws: seq<string>, k: nat)
    requires k < |raws|
    requires Run(s, raws[..k]).recording != Handle(Run(s, raws[..k]), raws[k]).0.recording
    ensures FlagMatches(Run(s, raws))
    decreases |raws|
  {
    if k == 0 {
      assert raws[..0] == [];
      TransitionSetsFlag(s, raws[0]);
      RunKeepsFlag(Handle(s, raws[0]).0, raws[1..]);
    } else {
      assert raws[..k][1..] == raws[1..][..k - 1];
      RunRepairsStaleFlag(Handle(s, raws[0]).0, raws[1..], k - 1);
    }
  }

  /** From a consistent state, after an accepted START the flag file exists
      and after an accepted STOP it does not. */
  lemma FlagAfterStartAndStop(s: Switch)
    requires FlagMatches(s)
    ensures Begin(s).0.flag && Begin(s).0.recording
    ensures !End(s).0.flag && !End(s).0.recording
  {
  }

  /** Distinct replies are distinct words on the socket. */
  lemma WireInjective(a: Reply, b: Reply)
    requires a.Wire() == b.Wire()
    ensures a == b
  {
  }
}
