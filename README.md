# whisper dictation daemon and status bar, modelled in Dafny

The system has two parts. `whisper_daemon.py` is a push-to-talk dictation
daemon. It takes one-word commands on a Unix socket (START, STOP, STATUS,
TOGGLE), records audio while the recording switch is on, and hands each
finished recording to whisper.cpp. Transcription goes through a resident
whisper-server or a one-shot whisper-cli run. The daemon types the text it
gets back and shows desktop notifications. `waybar_whisper.py` is the
status-bar module. It asks the daemon for its status, reads the model name
from the systemd unit, and renders an icon, a tooltip and a CSS class.

The model keeps the control logic and the text processing. Every foreign
effect becomes an input:

- the whisper-cli exit status and standard output;
- the server's HTTP reply and the readiness probe results;
- the contents of the vocabulary file and the unit file;
- whether the socket and the recording flag file exist;
- the daemon's reply to the status request.

The flag file /tmp/whisper_recording is a ghost field. Notifications and
typed text are recorded as logs on the daemon object.

Files (one module each):

- `wrappers.dfy` (`Wrappers`): `Option`.
- `text.dfy` (`Text`): the Python `str` operations the code relies on:
  `isspace`, `strip`, `find`/`in`, `split(sep)`, `sep.join`,
  `startswith`/`endswith`, `split()[0]` and `upper`.
- `control.dfy` (`Control`): the command table of `handle_command`,
  `start_recording` and `stop_recording`, as a pure transition function on
  (recording, flag file). It also holds the lemmas about sequences of
  requests.
- `vocab.dfy` (`Vocab`): `_load_vocab`. It is a `for` loop, proved against
  the word list `VocabWords`, and a round trip of the prompt it builds.
- `backend.dfy` (`Backend`): the whisper-cli argument vector and output
  filter, the server reply extraction and form fields, the readiness poll
  specification, and the backend choice.
- `capture.dfy` (`Capture`): `recorded_chunks` as a class, and the
  in-order concatenation.
- `daemon.dfy` (`Daemon`): the `WhisperDaemon` class. Its methods are
  proved to follow the command table. `StartWhisperServer` holds the
  readiness poll loop. It also has the transcription hand-off and the
  notifications.
- `waybar.dfy` (`Waybar`): `get_current_model` as a scan over lines,
  `get_daemon_status`, the rendering, and the `frame_index` counter as a
  class.

The processing override at waybar_whisper.py:83 compares the status with
"READY", but `get_daemon_status` only ever returns lower-case values. It is
modelled as written (`Waybar.AfterFlagCheck`). `Waybar.OverrideNeverFires` and
`Waybar.ClassFollowsDaemon` state its consequence: the bar never shows
"processing".

## Model

| member | source | states |
|---|---|---|
| Text.Strip | whisper_daemon.py:340 | `strip()` leaves no surrounding whitespace and gives "" exactly for an all-whitespace string |
| Text.StripPadded | whisper_daemon.py:340 | `strip()` ignores whitespace added on either side |
| Text.SplitOn | waybar_whisper.py:40 | `split(sep)` gives at least one piece, more than one exactly when `sep` occurs, and no piece contains `sep` |
| Text.SplitJoin | waybar_whisper.py:91 | splitting a newline-join of newline-free lines gives the lines back |
| Text.LeadingWord | waybar_whisper.py:42 | `split()[0]` of a stripped string is its prefix up to the first whitespace, itself without whitespace |
| Text.Find | waybar_whisper.py:38 | `in` / `find`: the index found is the first occurrence, and None means no occurrence at all |
| Text.JoinSplit | whisper_daemon.py:282 | `split(sep)` loses nothing: joining the pieces with `sep` gives the string back |
| Text.JoinAvoids | whisper_daemon.py:109 | a character in neither the separator nor any part is not in the `join` |
| Text.JoinTrimmed | whisper_daemon.py:291 | joining non-empty stripped parts gives a stripped string, non-empty when there is a part |
| Text.StripLower | whisper_daemon.py:340 | `strip()` commutes with ASCII lower-casing |
| Text.UpperIgnoresAsciiCase | whisper_daemon.py:340 | `upper()` gives the same result for strings that differ only in ASCII letter case |
| Text.UpperKeepsCapitals | whisper_daemon.py:340 | `upper()` leaves a string of ASCII capitals as it is |
| Control.CommandWords | whisper_daemon.py:340-348 | each of START, STOP, STATUS, TOGGLE sent as is selects its command |
| Control.Parse | whisper_daemon.py:340-354 | START, STOP, STATUS, TOGGLE are selected exactly by their stripped, upper-cased word; every other request is Unknown |
| Control.Begin | whisper_daemon.py:165-184 | `start_recording` always leaves recording on; ALREADY_RECORDING and no change exactly when it was on, else RECORDING with the flag file created |
| Control.End | whisper_daemon.py:186-202 | `stop_recording` always leaves recording off; NOT_RECORDING and no change exactly when it was off, else STOPPED with the flag file removed |
| Control.Dispatch | whisper_daemon.py:342-354 | START runs `start_recording`, STOP `stop_recording`, TOGGLE whichever switches the current state; the state stays or flips `recording` with the flag file in step; it flips exactly on a RECORDING or STOPPED reply to START, STOP or TOGGLE; STATUS and unknown words change nothing |
| Control.Handle | whisper_daemon.py:338-354 | on a raw request the state stays or flips `recording` with the flag file in step |
| Control.Run | whisper_daemon.py:338-354 | after any sequence of requests the state is unchanged or its flag file is in step with `recording` |
| Control.StatusWire | whisper_daemon.py:346-347 | STATUS leaves the state alone and answers "RECORDING" while recording, "READY" otherwise |
| Control.ParseIgnoresPadding | whisper_daemon.py:340 | whitespace around a request never changes the command it selects |
| Control.ParseIgnoresCase | whisper_daemon.py:340 | requests that differ only in ASCII letter case select the same command |
| Control.OnlyAcceptedRequestsChangeState | whisper_daemon.py:165-202 | a request changes the state only when accepted (RECORDING after START/TOGGLE, or STOPPED); refusals and READY leave it unchanged |
| Control.StatusAndUnknownAreReadOnly | whisper_daemon.py:346-354 | STATUS reports `recording` and changes nothing; an unknown word answers UNKNOWN_COMMAND and changes nothing |
| Control.ToggleFlips | whisper_daemon.py:348-352 | TOGGLE always negates `recording`, answering STOPPED or RECORDING to match |
| Control.TransitionSetsFlag | whisper_daemon.py:171-172 | any request that changes `recording` leaves the flag file in step with it |
| Control.HandleKeepsFlag | whisper_daemon.py:338-354 | one request preserves "flag file exists iff recording" |
| Control.RunKeepsFlag | whisper_daemon.py:338-354 | "flag file exists iff recording" holds after any sequence of requests that starts where it holds |
| Control.RunRepairsStaleFlag | whisper_daemon.py:171-193 | a stale flag file is back in step after the first request that changes `recording`, and stays so |
| Control.FlagAfterStartAndStop | whisper_daemon.py:171-193 | an accepted START leaves recording with the flag file present; an accepted STOP leaves neither |
| Control.WireInjective | whisper_daemon.py:338-354 | distinct replies are distinct words on the socket |
| Vocab.StrippedPiece | whisper_daemon.py:108 | a piece contributes at most one word, non-empty and stripped |
| Vocab.NonEmptyStrippedClean | whisper_daemon.py:108 | every piece the comprehension keeps is non-empty and stripped |
| Vocab.NonEmptyStrippedAvoids | whisper_daemon.py:108 | a character in no piece is in no kept word |
| Vocab.LoadVocab | whisper_daemon.py:91-114 | no prompt without a file name (None or empty), for a missing file or on a read error; otherwise the file's words in order, joined with ", " |
| Vocab.LineWordsAreWords | whisper_daemon.py:106-108 | every word of a line is non-empty and stripped, and holds neither '#' nor ',' |
| Vocab.VocabWordsAreWords | whisper_daemon.py:104-108 | every word of the whole file has that shape |
| Vocab.VocabWordsOfOne | whisper_daemon.py:104-108 | a one-line file gives the words of that line |
| Vocab.LineWordsOfClean | whisper_daemon.py:106-108 | a stripped line without '#' contributes its comma-separated pieces, stripped, the empty ones dropped |
| Vocab.VocabWordsAppend | whisper_daemon.py:105-108 | the words of consecutive lines come out in file order |
| Vocab.NonEmptyStrippedAppend | whisper_daemon.py:108 | the comprehension keeps the order of the pieces |
| Vocab.SplitJoinedWords | whisper_daemon.py:108-109 | splitting a ", "-join of words on ',' and stripping gives the words back, whatever whitespace precedes it |
| Vocab.SplitJoinedUnpadded | whisper_daemon.py:108-109 | splitting a ", "-join of words on ',' and stripping gives the words back |
| Vocab.JoinedWordsShape | whisper_daemon.py:109 | the prompt built from words holds no '#' and is already stripped |
| Vocab.PromptRoundTrip | whisper_daemon.py:104-109 | reading the prompt back as a one-line file yields exactly the words it was made from |
| Vocab.ReloadIsStable | whisper_daemon.py:104-109 | loading a file's prompt as a file yields the same words as the file |
| Backend.CliArgs | whisper_daemon.py:264-276 | the whisper-cli argv: seven fixed arguments, then `--prompt` and the prompt only when the prompt is non-empty |
| Backend.OutputLines | whisper_daemon.py:282 | the stripped output splits into at least one line, none holding a newline |
| Backend.OutputLinesOfPadded | whisper_daemon.py:282 | newline-free lines joined by newlines, with whitespace around the whole, split back into exactly those lines when the first and last ends are not whitespace |
| Backend.DiagnosticStart | whisper_daemon.py:287-289 | a log line begins with a letter, so stripping the output never hides its prefix |
| Backend.TextLines | whisper_daemon.py:283-290 | every kept line is non-empty and stripped |
| Backend.TextLinesAvoid | whisper_daemon.py:283-290 | a character in no output line is in no kept line |
| Backend.CliText | whisper_daemon.py:281-294 | the transcript is stripped and on one line, and is "" after a non-zero exit |
| Backend.CliTextIsJoin | whisper_daemon.py:291 | after exit 0 the transcript is exactly the single-space join of the kept lines, and is "" exactly when none is kept |
| Backend.TextLinesAppend | whisper_daemon.py:283-290 | the filter works line by line, keeping output order |
| Backend.DiagnosticLinesDropped | whisper_daemon.py:287-289 | lines starting with whisper_, system_info or main: are all dropped |
| Backend.CliKeepsOnlySpeech | whisper_daemon.py:281-291 | output made of log lines around one line of speech (not blank, not itself a log line) gives exactly that line stripped, whatever whitespace it carries |
| Backend.OneLineKept | whisper_daemon.py:291 | when the filter keeps a single line, the transcript is that line |
| Backend.ServerText | whisper_daemon.py:318-326 | the transcript is stripped; for a 200 reply with a string "text" it is that string stripped, with "text" missing it is "", and it is non-empty only in the first case |
| Backend.ServerEchoesText | whisper_daemon.py:318-326 | a 200 reply whose "text" is a stripped string yields that string |
| Backend.ServerIgnoresPadding | whisper_daemon.py:318-326 | whitespace the server puts around "text" never reaches the caller |
| Backend.ServerFailureIsEmpty | whisper_daemon.py:318-326 | a failed request or a status other than 200 gives "" |
| Backend.ServerForm | whisper_daemon.py:301-309 | the form has exactly temperature "0.0", temperature_inc "0.2" and response_format "json", plus "prompt" with the prompt exactly when the prompt is non-empty |
| Backend.ServerThreads | whisper_daemon.py:391 | the thread count is the CPU count when known and positive, otherwise exactly 4, and never 0 |
| Backend.FirstAnswerFrom | whisper_daemon.py:416-425 | the first probe in the window answered with 200 or 404, and no earlier one; None when none in the window is answered |
| Backend.FirstAnswer | whisper_daemon.py:413-425 | the first answered probe (200 or 404) in the window and none before it; None when no probe in the window is answered |
| Backend.FirstAnswerExact | whisper_daemon.py:413-432 | the server counts as started exactly when some probe inside the window is answered |
| Backend.FirstAnswerStable | whisper_daemon.py:414-423 | a longer window never undoes a successful start and finds the same probe |
| Backend.Transcript | whisper_daemon.py:242-246 | `server_mode` picks the backend; only a raising whisper-cli run yields no text; the text is always stripped |
| Capture.Concat | whisper_daemon.py:228 | the joined audio is as long as all blocks together |
| Capture.ConcatAppend | whisper_daemon.py:227-228 | concatenation keeps arrival order across runs of blocks |
| Capture.BlockInPlace | whisper_daemon.py:228 | each block sits unchanged in the joined audio, right after the blocks before it |
| Capture.ChunkBuffer.constructor | whisper_daemon.py:207 | a recording starts with no blocks |
| Capture.ChunkBuffer.Append | whisper_daemon.py:213 | a block is kept after those already kept |
| Capture.ChunkBuffer.Collect | whisper_daemon.py:227-231 | None exactly when no block was kept; otherwise the in-order concatenation, with the summed length |
| Daemon.Decide | whisper_daemon.py:248-256 | text is typed exactly when it is non-empty; empty text is reported as no speech; a raised run is a failure |
| Daemon.Prefix40 | whisper_daemon.py:251 | `text[:40]` is a prefix of exactly min(len(text), 40) characters, the whole text when it is that short |
| Daemon.OutcomeNotice | whisper_daemon.py:248-254 | typed text gives a low-urgency "Typed: " notice of at most 50 characters; no speech gives the critical "No speech detected"; nothing else notifies |
| Daemon.SwitchNotice | whisper_daemon.py:165-202 | a start or stop notice is due exactly when `recording` changes |
| Daemon.Shown | whisper_daemon.py:153-156 | a notice is shown only when notifications are enabled |
| Daemon.WhisperDaemon.constructor | whisper_daemon.py:50-73 | the daemon starts idle without a server process and with the loaded vocabulary prompt; the flag file may be stale |
| Daemon.WhisperDaemon.Notify | whisper_daemon.py:153-163 | a notice is appended when notifications are on; nothing else changes |
| Daemon.WhisperDaemon.StartRecording | whisper_daemon.py:165-184 | the new state and the reply are those of the command table (ALREADY_RECORDING and no change while recording); the start notice is shown |
| Daemon.WhisperDaemon.StopRecording | whisper_daemon.py:186-202 | the new state and the reply are those of the command table (NOT_RECORDING and no change while idle); the stop notice is shown |
| Daemon.WhisperDaemon.Execute | whisper_daemon.py:342-354 | the dispatch follows the command table for every command |
| Daemon.WhisperDaemon.HandleCommand | whisper_daemon.py:338-354 | the state and the wire reply follow the command table on the raw request; "flag file iff recording" is kept |
| Daemon.WhisperDaemon.OnAudioBlock | whisper_daemon.py:209-213 | a delivered block is kept exactly while recording |
| Daemon.WhisperDaemon.StartWhisperServer | whisper_daemon.py:367-432 | `server_mode` stays on only with `requests`, the binary, and an answered probe in the window; it is never switched on; after a timeout the process is dropped |
| Daemon.WhisperDaemon.TranscribeAndType | whisper_daemon.py:233-260 | the outcome follows the backend that `server_mode` picks; only non-empty text is typed; notices follow the outcome; `server_mode` is untouched |
| Daemon.WhisperDaemon.FinishRecording | whisper_daemon.py:226-231 | no transcription and no effect when no block arrived; otherwise the transcription hand-off |
| Daemon.TypedTextIsClean | whisper_daemon.py:243-251 | typed text is always non-empty and stripped, whichever backend produced it |
| Daemon.ServerFailureReportsNoSpeech | whisper_daemon.py:243-254 | in server mode a failed request is reported as no speech, never as a daemon failure |
| Waybar.LastNamed | waybar_whisper.py:44 | the last path component that names something, with only unnamed components after it |
| Waybar.Basename | waybar_whisper.py:44 | `Path(p).name` has no '/', is not ".", and consists of characters of `p` |
| Waybar.BasenameIsLastName | waybar_whisper.py:44 | the base name is "" exactly when no component names anything; otherwise it is a component with only unnamed components after it |
| Waybar.ModelName | waybar_whisper.py:45-46 | a model name m is found only for a file called exactly "ggml-" + m + ".bin" |
| Waybar.ModelNameOf | waybar_whisper.py:45-46 | every model name is recovered from its file name |
| Waybar.ScanLine | waybar_whisper.py:38-46 | only ExecStart= lines with --model decide; an empty argument raises; a match's "ggml-" + m + ".bin" is the base name of the argument's first word, and m has no whitespace or '/' |
| Waybar.ScanLineFinds | waybar_whisper.py:38-46 | an ExecStart= line whose --model argument's first word has base name "ggml-" + m + ".bin" yields m |
| Waybar.Decisive | waybar_whisper.py:37-46 | the first line that ends the search, with every line before it skipped |
| Waybar.ModelOfScans | waybar_whisper.py:37-47 | a model found is the match of a line after which nothing but skipped lines came before; any such first match is the model found |
| Waybar.ModelOfLines | waybar_whisper.py:37-47 | a model found has no whitespace or '/' |
| Waybar.CurrentModel | waybar_whisper.py:29-49 | the model shown has no whitespace, and is "unknown" when the unit file is missing or unreadable |
| Waybar.CurrentModelSound | waybar_whisper.py:29-49 | the model shown is "unknown" or the match of a unit-file line preceded only by skipped lines |
| Waybar.CurrentModelFound | waybar_whisper.py:37-47 | the first matching line after skipped lines names the model shown |
| Waybar.ModelOfAppend | waybar_whisper.py:37-47 | skipped lines before others do not matter, and lines after a deciding line do not either |
| Waybar.MapAppend | waybar_whisper.py:37 | scanning two runs of lines gives the scans of the first followed by the second |
| Waybar.FirstMatchWins | waybar_whisper.py:37-46 | after skipped lines, the first matching line names the model whatever follows |
| Waybar.CrashAborts | waybar_whisper.py:37-49 | after skipped lines, a --model with nothing after it gives "unknown" even when a later line would match |
| Waybar.DaemonStatus | waybar_whisper.py:52-72 | "recording" exactly for the stripped reply RECORDING, "ready" exactly for READY, "error" otherwise and without a socket or reply |
| Waybar.StatusFollowsDaemon | waybar_whisper.py:61-68 | the bar reads the daemon's STATUS reply as recording while it records and ready otherwise |
| Waybar.OverrideNeverFires | waybar_whisper.py:83-84 | the processing override never changes the status |
| Waybar.ClassFollowsDaemon | waybar_whisper.py:83-104 | the CSS class is the daemon status: recording, ready or error, never processing |
| Waybar.HeadlineOneLine | waybar_whisper.py:86-104 | the tooltip's first line is a single line for every status |
| Waybar.HeadlineNotRunning | waybar_whisper.py:86-104 | the tooltip's first line reads "Daemon not running" exactly for a status other than recording, processing and ready |
| Waybar.Render | waybar_whisper.py:86-110 | exactly the keys text, tooltip and class; class is the status when known, else error; the animated frame while recording; the processing icon while processing; the dot when ready and on error; the tooltip starts with the headline and the model line |
| Waybar.TooltipIsJoin | waybar_whisper.py:91-103 | the tooltip is its lines joined by newlines |
| Waybar.TooltipSplit | waybar_whisper.py:91-104 | for a one-line model name the tooltip is headline, model line, and the switch hint except on error |
| Waybar.TooltipLinesOneLine | waybar_whisper.py:91-104 | no tooltip line holds a newline for a one-line model name |
| Waybar.StatusBar.constructor | waybar_whisper.py:26 | the animation starts at frame 0 |
| Waybar.StatusBar.GetWaybarOutput | waybar_whisper.py:75-112 | the output renders the shown status, model and current frame; `frame_index` advances by exactly 1 when the class is recording, else stays |

## Left out

- Audio capture is left out: the `sounddevice` input stream, its callback thread, the `sd.sleep` polling and `play_sound`. Recorded audio is a sequence of blocks of 16-bit samples.
- Socket plumbing is left out: the accept loop in `start`, per-client threads, `handle_client` recv/send and decoding, and the socket-file removal. The daemon's side starts at `handle_command` on a received string. The bar's side receives the reply as `Option<string>`, where None means the exchange raised.
- whisper-cli, whisper-server `Popen`, `notify-send`, `wtype` and the HTTP requests are foreign processes and network. The whisper-cli exit status and output, the HTTP replies and the probe results are parameters. The rest of the whisper-server argv and the URLs are not modelled; only its `--threads` value is.
- `_signal_handler`, `sys.exit`, process termination, `preload_sounds` and logging are left out.
- Filesystem I/O is left out: `tempfile`, `wavfile`, `os.unlink`, `Path.exists` and file reads. The flag file is a ghost boolean, and file contents arrive as lines or text.
- `argparse`/`main`, `json.dumps` and the bar's `while True` print loop are left out. The bar's output is the record before serialisation.
- The float duration in the log at whisper_daemon.py:235 is left out.
- Daemon.WhisperDaemon.StartWhisperServer: a `Popen` that raises at whisper_daemon.py:409-411 is not caught there and aborts daemon start-up; the model always obtains a process.
- Daemon.WhisperDaemon.StartWhisperServer: the 30-second wall clock, with its 1-second probe timeouts and 0.5-second sleeps, is a budget of probe attempts, and the probe outcomes are a given sequence.
- Daemon.WhisperDaemon.TranscribeAndType: `typed` records the hand-off to `wtype`. Whether `wtype` then fails is only logged by the source and is not modelled.
- Daemon.WhisperDaemon.OnAudioBlock: the callback runs on the audio thread. Interleaving with `stop_recording` is not modelled, and blocks are kept in arrival order.
- Control.ParseIgnoresCase: case-insensitivity is stated for ASCII letters only. `Text.Upper` maps ASCII letters and the few characters whose upper-case form is all ASCII capitals, and keeps every other character, so other Unicode case mappings are not modelled.
- Text.LeadingWord: modelled for the stripped argument `split()[0]` receives in the source, not for arbitrary strings.
