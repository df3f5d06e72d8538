/** The `WhisperDaemon` class of whisper_daemon.py: the recording switch
    driven by client commands, the choice of transcription backend with its
    one-way fall-back from server to CLI, and the hand-off of a finished
    recording to transcription, typing and notification. Sounds, threads,
    sockets and the foreign processes are outside the model; what the latter
    report comes in as parameters. */
module Daemon {
  import opened Wrappers
  import opened Text
  import opened Control
  import opened Vocab
  import opened Backend
  import opened Capture

  /** `notify-send` urgency levels. */
  datatype Urgency = Low | Normal | Critical

  /** One desktop notification. */
  datatype Notice = Notice(message: string, urgency: Urgency)

  /** What became of one finished recording: nothing captured, text typed,
      nothing recognised, or the transcription raised (logged only). */
  datatype Outcome = NoAudio | Typed(text: string) | NoSpeech | Failed

  /** The branch of `_transcribe_and_type` on the backend's text: type it
      when there is any, report missing speech when it is empty. */
  function Decide(t: Option<string>): (o: Outcome)
    ensures o.Typed? <==> t.Some? && t.value != []
    ensures o.Typed? ==> o.text == t.value
    ensures o == NoSpeech <==> t == Some([])
    ensures o == Failed <==> t.None?
  {
    match t
    case None => Failed
    case Some(text) => if text != [] then Typed(text) else NoSpeech
  }

  /** At most the first 40 characters (`text[:40]`). */
  function Prefix40(s: string): (p: string)
    ensures StartsWith(s, p)
    ensures |p| == if |s| < 40 then |s| else 40
    ensures |s| <= 40 ==> p == s
  {
    s[..if |s| < 40 then |s| else 40]
  }

  /** The notification that follows an outcome: a short low-urgency echo of
      typed text, a critical "No speech detected", or none. */
  function OutcomeNotice(o: Outcome): (n: Option<Notice>)
    ensures n.Some? <==> o.Typed? || o == NoSpeech
    ensures o.Typed? ==>
      (n.value.urgency == Low && StartsWith(n.value.message, "Typed: ") && |n.value.message| <= 50)
    ensures o == NoSpeech ==> n.value == Notice("No speech detected", Critical)
  {
    match o
    case Typed(text) => Some(Notice("Typed: " + Prefix40(text) + "...", Low))
    case NoSpeech => Some(Notice("No speech detected", Critical))
    case _ => None
  }

  /** The notification that follows a change of the recording switch:
      one when recording starts, another when it stops, none otherwise. */
  function SwitchNotice(before: Switch, after: Switch): (n: Option<Notice>)
    ensures n.Some? <==> before.recording != after.recording
  {
    if !before.recording && after.recording then
      Some(Notice("Recording started... Press SUPER+D to stop", Normal))
    else if before.recording && !after.recording then
      Some(Notice("Recording stopped - transcribing...", Normal))
    else None
  }

  /** What `notify` adds to the notifications shown: nothing when they are
      switched off. */
  function Shown(enabled: bool, n: Option<Notice>): (added: seq<Notice>)
    ensures |added| <= 1
    ensures added != [] <==> enabled && n.Some?
  {
    if enabled && n.Some? then [n.value] else []
  }

  class WhisperDaemon {
    /** Whether audio is being captured. */
    var recording: bool
    /** Whether /tmp/whisper_recording exists. */
    ghost var flagPresent: bool
    /** Whether utterances go to the resident whisper-server. */
    var serverMode: bool
    /** Whether a whisper-server process is held (`whisper_server_process`). */
    var serverRunning: bool
    /** Whether `notify` shows anything. */
    const notifications: bool
    /** The vocabulary prompt passed to both backends. */
    const vocabPrompt: Option<string>
    /** The notifications shown so far, in order. */
    var notices: seq<Notice>
    /** The texts handed to `wtype`, in order. */
    var typed: seq<string>

    /** The part of the state the command table covers. */
    ghost function State(): Switch
      reads this
    {
      Switch(recording, flagPresent)
    }

    /** A fresh daemon: idle, no server process, vocabulary loaded. The flag
        file may be left over from an earlier run (`flagAtStart`). */
    constructor(notifications: bool, serverMode: bool, vocabFile: Option<string>,
                file: VocabFile, ghost flagAtStart: bool)
      ensures !recording && flagPresent == flagAtStart
      ensures this.serverMode == serverMode && !serverRunning
      ensures this.notifications == notifications
      ensures vocabPrompt.Some? <==> vocabFile.Some? && vocabFile.value != [] && file.Lines?
      ensures vocabPrompt.Some? ==> vocabPrompt.value == Join(VocabWords(file.lines), ", ")
      ensures notices == [] && typed == []
    {
      var prompt := LoadVocab(vocabFile, file);
      this.notifications := notifications;
      this.serverMode := serverMode;
      vocabPrompt := prompt;
      recording := false;
      flagPresent := flagAtStart;
      serverRunning := false;
      notices := [];
      typed := [];
    }

    /** `notify`: shows the message unless notifications are off. */
    method Notify(message: string, urgency: Urgency)
      modifies this
      ensures notices == old(notices) + Shown(notifications, Some(Notice(message, urgency)))
      ensures recording == old(recording) && flagPresent == old(flagPresent)
      ensures serverMode == old(serverMode) && serverRunning == old(serverRunning)
      ensures typed == old(typed)
    {
      if notifications {
        notices := notices + [Notice(message, urgency)];
      }
    }

    /** `start_recording`: refused while recording; otherwise sets
        `recording`, creates the flag file and announces the start. */
    method StartRecording() returns (reply: Reply)
      modifies this
      ensures (State(), reply) == Begin(old(State()))
      ensures notices == old(notices) + Shown(notifications, SwitchNotice(old(State()), State()))
      ensures serverMode == old(serverMode) && serverRunning == old(serverRunning)
      ensures typed == old(typed)
    {
      if recording {
        return AlreadyRecording;
      }
      recording := true;
      flagPresent := true;
      Notify("Recording started... Press SUPER+D to stop", Normal);
      reply := Recording;
    }

    /** `stop_recording`: refused while idle; otherwise clears `recording`,
        removes the flag file and announces the stop. */
    method StopRecording() returns (reply: Reply)
      modifies this
      ensures (State(), reply) == End(old(State()))
      ensures notices == old(notices) + Shown(notifications, SwitchNotice(old(State()), State()))
      ensures serverMode == old(serverMode) && serverRunning == old(serverRunning)
      ensures typed == old(typed)
    {
      if !recording {
        return NotRecording;
      }
      recording := false;
      flagPresent := false;
      Notify("Recording stopped - transcribing...", Normal);
      reply := Stopped;
    }

    /** The dispatch of `handle_command` once the command is known. */
    method Execute(command: Command) returns (reply: Reply)
      modifies this
      ensures (State(), reply) == Dispatch(old(State()), command)
      ensures notices == old(notices) + Shown(notifications, SwitchNotice(old(State()), State()))
      ensures serverMode == old(serverMode) && serverRunning == old(serverRunning)
      ensures typed == old(typed)
    {
      match command {
        case Start =>
          reply := StartRecording();
        case Stop =>
          reply := StopRecording();
        case Status =>
          reply := if recording then Recording else Ready;
        case Toggle =>
          if recording {
            reply := StopRecording();
          } else {
            reply := StartRecording();
          }
        case Unknown =>
          reply := UnknownCommand;
      }
    }

    /** `handle_command`: the command table applied to the request, with
        the reply in its wire form; the flag file keeps matching
        `recording` once it does. */
    method HandleCommand(raw: string) returns (response: string)
      modifies this
      ensures State() == Handle(old(State()), raw).0
      ensures response == Handle(old(State()), raw).1.Wire()
      ensures notices == old(notices) + Shown(notifications, SwitchNotice(old(State()), State()))
      ensures old(FlagMatches(State())) ==> FlagMatches(State())
      ensures serverMode == old(serverMode) && serverRunning == old(serverRunning)
      ensures typed == old(typed)
    {
      ghost var before := State();
      var reply := Execute(Parse(raw));
      response := reply.Wire();
      if FlagMatches(before) {
        HandleKeepsFlag(before, raw);
      }
    }

    /** The audio callback: a delivered block is kept only while recording. */
    method OnAudioBlock(buffer: ChunkBuffer, block: seq<Sample>)
      modifies buffer
      ensures buffer.chunks == old(buffer.chunks) + (if recording then [block] else [])
    {
      if recording {
        buffer.Append(block);
      }
    }

    /** `_start_whisper_server`: keeps server mode only when `requests` is
        available, the whisper-server binary exists and one of the `budget`
        readiness probes that fit in the 30-second window is answered;
        otherwise falls back to the CLI for good. After a timeout the
        started process is dropped. */
    method StartWhisperServer(hasRequests: bool, binaryExists: bool, probes: seq<Probe>, budget: nat)
      modifies this
      ensures serverMode == (old(serverMode) && hasRequests && binaryExists
                             && FirstAnswer(probes, budget).Some?)
      ensures serverMode ==> old(serverMode)
      ensures serverRunning == if old(serverMode) && hasRequests && binaryExists
                               then FirstAnswer(probes, budget).Some? else old(serverRunning)
      ensures recording == old(recording) && flagPresent == old(flagPresent)
      ensures notices == old(notices) && typed == old(typed)
    {
      if !serverMode {
        return;
      }
      if !hasRequests {
        serverMode := false;
        return;
      }
      if !binaryExists {
        serverMode := false;
        return;
      }
      serverRunning := true;
      var attempt := 0;
      while attempt < budget
        invariant attempt <= budget
        invariant forall j :: 0 <= j < attempt ==> !Answers(ProbeAt(probes, j))
        invariant serverMode && serverRunning
        invariant recording == old(recording) && flagPresent == old(flagPresent)
        invariant notices == old(notices) && typed == old(typed)
        decreases budget - attempt
      {
        if Answers(ProbeAt(probes, attempt)) {
          return;
        }
        attempt := attempt + 1;
      }
      serverMode := false;
      serverRunning := false;
    }

    /** `_transcribe_and_type`: the backend chosen by `serverMode` gives
        the text; non-empty text is typed and echoed, empty text is only
        reported, and a raised CLI run does neither. */
    method TranscribeAndType(cli: CliRun, server: HttpReply) returns (outcome: Outcome)
      modifies this
      ensures outcome == Decide(Transcript(old(serverMode), cli, server))
      ensures typed == old(typed) + (if outcome.Typed? then [outcome.text] else [])
      ensures notices == old(notices) + Shown(notifications, OutcomeNotice(outcome))
      ensures recording == old(recording) && flagPresent == old(flagPresent)
      ensures serverMode == old(serverMode) && serverRunning == old(serverRunning)
    {
      var text: string;
      if serverMode {
        text := ServerText(server);
      } else {
        match cli {
          case Raised =>
            return Failed;
          case Exited(code, stdout) =>
            text := CliText(code, stdout);
        }
      }
      if text != [] {
        typed := typed + [text];
        Notify("Typed: " + Prefix40(text) + "...", Low);
        outcome := Typed(text);
      } else {
        Notify("No speech detected", Critical);
        outcome := NoSpeech;
      }
    }

    /** The end of `_record_audio`: no transcription when no block arrived,
        otherwise the joined audio is transcribed. */
    method FinishRecording(buffer: ChunkBuffer, cli: CliRun, server: HttpReply) returns (outcome: Outcome)
      modifies this
      ensures buffer.chunks == [] ==> outcome == NoAudio
      ensures buffer.chunks != [] ==> outcome == Decide(Transcript(old(serverMode), cli, server))
      ensures outcome == NoAudio ==> notices == old(notices) && typed == old(typed)
      ensures outcome != NoAudio ==> typed == old(typed) + (if outcome.Typed? then [outcome.text] else [])
      ensures outcome != NoAudio ==> notices == old(notices) + Shown(notifications, OutcomeNotice(outcome))
      ensures recording == old(recording) && flagPresent == old(flagPresent)
      ensures serverMode == old(serverMode) && serverRunning == old(serverRunning)
    {
      var audio := buffer.Collect();
      if audio.None? {
        return NoAudio;
      }
      outcome := TranscribeAndType(cli, server);
    }
  }

  /** A typed outcome always carries a non-empty transcript without
      surrounding whitespace, whichever backend produced it. */
  lemma TypedTextIsClean(serverMode: bool, cli: CliRun, server: HttpReply)
    ensures Decide(Transcript(serverMode, cli, server)).Typed? ==>
      var t := Decide(Transcript(serverMode, cli, server)).text;
      t != [] && Trimmed(t)
  {
  }

  /** In server mode a failed request is reported as missing speech; it
      never counts as a failure of the daemon. */
  lemma ServerFailureReportsNoSpeech(cli: CliRun, server: HttpReply)
    requires server.RequestFailed? || server.status != 200
    ensures Decide(Transcript(true, cli, server)) == NoSpeech
  {
    ServerFailureIsEmpty(server);
  }
}
