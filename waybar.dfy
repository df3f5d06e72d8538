/** waybar_whisper.py: the status-bar module that reports the daemon's
    state. Each refresh asks the daemon for its status, reads the model
    name from the systemd unit, and renders an icon, a tooltip and a CSS
    class; a counter advances the recording animation. */
module Waybar {
  import opened Wrappers
  import opened Text
  import Control

  /** The systemd unit file as the script finds it. */
  datatype ServiceFile = Absent | Unreadable | Content(text: string)

  /** Path components that do not name anything: the empty component
      between repeated or trailing slashes, and ".". */
  predicate Unnamed(part: string) {
    part == [] || part == "."
  }

  /** The last named component among `parts[..k]`. */
  function LastNamed(parts: seq<string>, k: nat): (j: Option<nat>)
    requires k <= |parts|
    ensures j.Some? ==> j.value < k && !Unnamed(parts[j.value])
    ensures j.Some? ==> forall i :: j.value < i < k ==> Unnamed(parts[i])
    ensures j.None? ==> forall i :: 0 <= i < k ==> Unnamed(parts[i])
  {
    if k == 0 then None
    else if Unnamed(parts[k - 1]) then LastNamed(parts, k - 1)
    else Some(k - 1)
  }

  /** The pieces of a POSIX path between slashes. */
  function Components(p: string): seq<string> {
    SplitOn(p, "/")
  }

  /** `Path(p).name` for a POSIX path: its last named component, or "" when
      it has none (the root, an empty path, or only `.` components). The name
      is a piece of the path without slashes. */
  function Basename(p: string): (name: string)
    ensures '/' !in name && name != "."
    ensures forall c :: c in name ==> c in p
  {
    var parts := Components(p);
    match LastNamed(parts, |parts|)
    case None => []
    case Some(j) =>
      assert '/' !in parts[j] by {
        ContainsChar(parts[j], '/');
      }
      assert forall c :: c in parts[j] ==> c in p by {
        forall c | c in parts[j] ensures c in p {
          SplitPieceInside(p, "/", j, c);
        }
      }
      parts[j]
  }

  /** The name is the last component between slashes that is neither empty
      nor `.`, and it is "" exactly when there is no such component. */
  lemma BasenameIsLastName(p: string)
    ensures Basename(p) == [] <==> forall i :: 0 <= i < |Components(p)| ==> Unnamed(Components(p)[i])
    ensures Basename(p) != [] ==>
      exists j :: 0 <= j < |Components(p)| && Components(p)[j] == Basename(p)
        && (forall i :: j < i < |Components(p)| ==> Unnamed(Components(p)[i]))
  {
    var parts := Components(p);
    match LastNamed(parts, |parts|)
    case None =>
    case Some(j) =>
      assert Basename(p) == parts[j];
      assert !Unnamed(parts[j]) && |parts[j]| > 0;
  }

  /** A file name of the form ggml-<model>.bin is at least nine characters
      long: the prefix and the suffix cannot overlap. */
  lemma GgmlNameLength(file: string)
    requires StartsWith(file, "ggml-") && EndsWith(file, ".bin")
    ensures |file| >= 9
  {
    var n := |file|;
    assert file[n - 4] == file[n - 4..][0] == '.';
    forall i | 0 <= i < 5 ensures file[i] != '.' {
      assert file[i] == file[..5][i];
    }
  }

  /** The model name inside a whisper.cpp model file name: `file[5:-4]`
      when the file is called ggml-<model>.bin, otherwise nothing. */
  function ModelName(file: string): (m: Option<string>)
    ensures m.Some? ==> file == "ggml-" + m.value + ".bin"
  {
    if StartsWith(file, "ggml-") && EndsWith(file, ".bin") then
      GgmlNameLength(file);
      assert file == file[..5] + file[5..|file| - 4] + file[|file| - 4..];
      Some(file[5..|file| - 4])
    else None
  }

  /** Every model name is recovered from its file name. */
  lemma ModelNameOf(m: string)
    ensures ModelName("ggml-" + m + ".bin") == Some(m)
  {
    var file := "ggml-" + m + ".bin";
    assert file[..5] == "ggml-";
    assert file[|file| - 4..] == ".bin";
    assert file[5..|file| - 4] == m;
  }

  /** What one line of the unit file contributes to the search. */
  datatype LineScan =
    | Skip             // not the ExecStart line, or its model file is not ggml-<model>.bin
    | Match(model: string)
    | Crash            // `split()[0]` of an empty remainder raises IndexError

  /** The model argument of a line that mentions `--model`: the text after
      the first `--model` and before any second one, stripped. */
  function ModelArgument(line: string): string
    requires Contains(line, "--model")
  {
    Strip(SplitOn(line, "--model")[1])
  }

  /** One iteration of the search in `get_current_model`. A match names the
      model whose file name ggml-<model>.bin is the base name of the first
      word of the model argument. */
  function ScanLine(line: string): (r: LineScan)
    ensures r != Skip ==> Contains(line, "ExecStart=") && Contains(line, "--model")
    ensures r == Crash <==>
      Contains(line, "ExecStart=") && Contains(line, "--model") && ModelArgument(line) == []
    ensures r.Match? ==>
      (ModelArgument(line) != []
       && "ggml-" + r.model + ".bin" == Basename(LeadingWord(ModelArgument(line))))
    ensures r.Match? ==> NoSpace(r.model) && '/' !in r.model
  {
    if !(Contains(line, "ExecStart=") && Contains(line, "--model")) then Skip
    else
      var parts := SplitOn(line, "--model");
      if |parts| > 1 then
        var argument := Strip(parts[1]);
        if argument == [] then Crash
        else
          var word := LeadingWord(argument);
          var file := Basename(word);
          match ModelName(file)
          case None => Skip
          case Some(m) =>
            assert NoSpace(m) && '/' !in m by {
              forall i | 0 <= i < |m| ensures !IsSpace(m[i]) && m[i] != '/' {
                assert m[i] == file[5 + i];
                assert file[5 + i] in word;
              }
            }
            Match(m)
      else Skip
  }

  /** Conversely, an ExecStart line whose model argument starts with a path
      to ggml-<m>.bin is a match for `m`. */
  lemma ScanLineFinds(line: string, m: string)
    requires Contains(line, "ExecStart=") && Contains(line, "--model")
    requires ModelArgument(line) != []
    requires Basename(LeadingWord(ModelArgument(line))) == "ggml-" + m + ".bin"
    ensures ScanLine(line) == Match(m)
  {
    ModelNameOf(m);
  }

  /** `f` applied to every element, in order. */
  function Map<X, Y>(f: X -> Y, xs: seq<X>): (ys: seq<Y>)
    ensures |ys| == |xs|
    ensures forall k :: 0 <= k < |xs| ==> ys[k] == f(xs[k])
  {
    seq(|xs|, k requires 0 <= k < |xs| => f(xs[k]))
  }

  /** The outcome of every line of the unit file, in order. */
  function ScanAll(lines: seq<string>): seq<LineScan> {
    Map(ScanLine, lines)
  }

  /** The first line at or after `i` that ends the search. */
  function Decisive(scans: seq<LineScan>, i: nat): (k: Option<nat>)
    requires i <= |scans|
    ensures k.Some? ==> i <= k.value < |scans| && scans[k.value] != Skip
    ensures k.Some? ==> forall j :: i <= j < k.value ==> scans[j] == Skip
    ensures k.None? ==> forall j :: i <= j < |scans| ==> scans[j] == Skip
    decreases |scans| - i
  {
    if i == |scans| then None
    else if scans[i] != Skip then Some(i)
    else Decisive(scans, i + 1)
  }

  /** Every scan before `k` skipped its line. */
  predicate SkippedUntil(scans: seq<LineScan>, k: nat)
    requires k <= |scans|
  {
    forall j :: 0 <= j < k ==> scans[j] == Skip
  }

  /** The answer of the search: the first decisive line gives it, and a
      crash there aborts the search. A model is found exactly when the first
      line that does not skip is a match, and it is that line's model. */
  function ModelOfScans(scans: seq<LineScan>): (m: Option<string>)
    ensures m.Some? ==> exists k :: 0 <= k < |scans| && SkippedUntil(scans, k) && scans[k] == Match(m.value)
    ensures forall k :: 0 <= k < |scans| && SkippedUntil(scans, k) && scans[k].Match? ==> m == Some(scans[k].model)
  {
    match Decisive(scans, 0)
    case None => None
    case Some(k) => if scans[k].Match? then Some(scans[k].model) else None
  }

  /** The model the unit's lines name, scanning them in order. */
  function ModelOfLines(lines: seq<string>): (m: Option<string>)
    ensures m.Some? ==> NoSpace(m.value) && '/' !in m.value
  {
    ModelOfScans(ScanAll(lines))
  }

  /** The lines of the unit file's text. */
  function UnitLines(text: string): seq<string> {
    SplitOn(text, "\n")
  }

  /** `get_current_model`: the model named by the unit file, or "unknown"
      when the file is missing or unreadable, no line names a ggml model,
      or the search raised. */
  function CurrentModel(service: ServiceFile): (name: string)
    ensures NoSpace(name)
    ensures !service.Content? ==> name == "unknown"
  {
    match service
    case Content(text) =>
      (match ModelOfLines(UnitLines(text))
       case Some(m) => m
       case None => "unknown")
    case _ => "unknown"
  }

  /** The model shown comes from a line of the unit file: "unknown", or the
      model of a line that matches after every earlier line skipped. */
  lemma CurrentModelSound(text: string)
    ensures var name := CurrentModel(Content(text));
      name == "unknown" ||
      exists k :: 0 <= k < |UnitLines(text)| && SkippedUntil(ScanAll(UnitLines(text)), k)
        && ScanLine(UnitLines(text)[k]) == Match(name)
  {
    var lines := UnitLines(text);
    var scans := ScanAll(lines);
    match ModelOfScans(scans)
    case None =>
    case Some(m) =>
      assert CurrentModel(Content(text)) == m;
      var k :| 0 <= k < |scans| && SkippedUntil(scans, k) && scans[k] == Match(m);
      assert scans[k] == ScanLine(lines[k]);
  }

  /** The first line that matches, after lines that all skip, names the
      model shown. */
  lemma CurrentModelFound(text: string, k: nat)
    requires k < |UnitLines(text)| && SkippedUntil(ScanAll(UnitLines(text)), k)
    requires ScanLine(UnitLines(text)[k]).Match?
    ensures CurrentModel(Content(text)) == ScanLine(UnitLines(text)[k]).model
  {
    var scans := ScanAll(UnitLines(text));
    assert scans[k] == ScanLine(UnitLines(text)[k]);
  }

  lemma {:induction false} DecisiveShift(a: seq<LineScan>, b: seq<LineScan>, j: nat)
    requires j <= |b|
    ensures Decisive(a + b, |a| + j) ==
      match Decisive(b, j) case Some(k) => Some(|a| + k) case None => None
    decreases |b| - j
  {
    if j < |b| {
      assert (a + b)[|a| + j] == b[j];
      DecisiveShift(a, b, j + 1);
    }
  }

  lemma {:induction false} DecisiveAppend(a: seq<LineScan>, b: seq<LineScan>, i: nat)
    requires i <= |a|
    ensures Decisive(a + b, i) ==
      match Decisive(a, i)
      case Some(k) => Some(k)
      case None => match Decisive(b, 0) case Some(k) => Some(|a| + k) case None => None
    decreases |a| - i
  {
    if i < |a| {
      assert (a + b)[i] == a[i];
      if a[i] == Skip {
        DecisiveAppend(a, b, i + 1);
      }
    } else {
      DecisiveShift(a, b, 0);
    }
  }

  /** The search over lines put together: lines that are skipped do not
      matter, and once a line decides, what follows it does not either. */
  lemma ModelOfAppend(a: seq<LineScan>, b: seq<LineScan>)
    ensures (forall k :: 0 <= k < |a| ==> a[k] == Skip) ==> ModelOfScans(a + b) == ModelOfScans(b)
    ensures (exists k :: 0 <= k < |a| && a[k] != Skip) ==> ModelOfScans(a + b) == ModelOfScans(a)
  {
    DecisiveAppend(a, b, 0);
    if Decisive(a, 0).Some? {
      assert (a + b)[Decisive(a, 0).value] == a[Decisive(a, 0).value];
    } else if Decisive(b, 0).Some? {
      assert (a + b)[|a| + Decisive(b, 0).value] == b[Decisive(b, 0).value];
    }
  }

  lemma MapAppend<X, Y>(f: X -> Y, a: seq<X>, b: seq<X>)
    ensures Map(f, a + b) == Map(f, a) + Map(f, b)
  {
    var ys := Map(f, a) + Map(f, b);
    forall k | 0 <= k < |a + b| ensures Map(f, a + b)[k] == ys[k] {
      if k < |a| {
        assert (a + b)[k] == a[k];
      } else {
        assert (a + b)[k] == b[k - |a|];
      }
    }
  }

  lemma ScanAround(before: seq<string>, line: string, after: seq<string>)
    ensures ScanAll(before + [line] + after) == ScanAll(before) + ([ScanLine(line)] + ScanAll(after))
  {
    MapAppend(ScanLine, before + [line], after);
    MapAppend(ScanLine, before, [line]);
  }

  /** The first line whose model file matches wins over later ones. */
  lemma FirstMatchWins(before: seq<string>, line: string, after: seq<string>)
    requires forall k :: 0 <= k < |before| ==> ScanLine(before[k]) == Skip
    requires ScanLine(line).Match?
    ensures ModelOfLines(before + [line] + after) == Some(ScanLine(line).model)
  {
    ScanAround(before, line, after);
    var tail := [ScanLine(line)] + ScanAll(after);
    ModelOfAppend(ScanAll(before), tail);
    ModelOfAppend([ScanLine(line)], ScanAll(after));
    assert ([ScanLine(line)] + ScanAll(after))[0] == ScanLine(line);
    assert Decisive([ScanLine(line)], 0) == Some(0);
  }

  /** An ExecStart line with nothing after `--model` ends the search with
      "unknown", even when a later line would match. */
  lemma CrashAborts(before: seq<string>, line: string, after: seq<string>)
    requires forall k :: 0 <= k < |before| ==> ScanLine(before[k]) == Skip
    requires ScanLine(line) == Crash
    ensures ModelOfLines(before + [line] + after) == None
  {
    ScanAround(before, line, after);
    var tail := [ScanLine(line)] + ScanAll(after);
    ModelOfAppend(ScanAll(before), tail);
    ModelOfAppend([ScanLine(line)], ScanAll(after));
    assert ([ScanLine(line)] + ScanAll(after))[0] == ScanLine(line);
    assert Decisive([ScanLine(line)], 0) == Some(0);
  }

  /** `get_daemon_status`: "error" without the socket or when the exchange
      raised (`reply` None), otherwise the stripped reply mapped onto the
      three states the bar knows. */
  function DaemonStatus(socketExists: bool, reply: Option<string>): (status: string)
    ensures status == "recording" || status == "ready" || status == "error"
    ensures status == "recording" <==> socketExists && reply.Some? && Strip(reply.value) == "RECORDING"
    ensures status == "ready" <==> socketExists && reply.Some? && Strip(reply.value) == "READY"
  {
    if !socketExists then "error"
    else
      match reply
      case None => "error"
      case Some(response) =>
        var r := Strip(response);
        if r == "RECORDING" then "recording"
        else if r == "READY" then "ready"
        else "error"
  }

  /** The two replies the bar accepts, as sent. */
  lemma StatusWords()
    ensures DaemonStatus(true, Some("RECORDING")) == "recording"
    ensures DaemonStatus(true, Some("READY")) == "ready"
  {
    StripTrimmed("RECORDING");
    StripTrimmed("READY");
  }

  /** The bar agrees with the daemon: the reply to STATUS shows as
      "recording" while the daemon records and "ready" otherwise. */
  lemma StatusFollowsDaemon(s: Control.Switch)
    ensures DaemonStatus(true, Some(Control.Handle(s, "STATUS").1.Wire())) ==
      if s.recording then "recording" else "ready"
  {
    Control.StatusWire(s);
    StatusWords();
  }

  /** The status after the check for the recording flag. The check compares
      with "READY", which `get_daemon_status` never returns. */
  function AfterFlagCheck(status: string, flagExists: bool): string {
    if flagExists && status == "READY" then "processing" else status
  }

  /** The processing override never fires: the shown status is the
      daemon's status. */
  lemma OverrideNeverFires(socketExists: bool, reply: Option<string>, flagExists: bool)
    ensures AfterFlagCheck(DaemonStatus(socketExists, reply), flagExists) == DaemonStatus(socketExists, reply)
  {
  }

  /** The bullet shown when ready or in error. */
  const Dot: string := "\U{25CF}"

  /** The animation frames while recording (all four the same). */
  const RecordingFrames: seq<string> := [
    "\U{25CF} dictation", "\U{25CF} dictation", "\U{25CF} dictation", "\U{25CF} dictation"]

  /** The tooltip line that invites a model switch. */
  const HintLine: string := "Right-click to switch model"

  /** The tooltip line that names the model. */
  function ModelLine(model: string): string {
    "Model: " + model
  }

  /** The status-dependent first line of the tooltip. */
  function Headline(status: string): string {
    if status == "recording" then "Recording... (SUPER+D to stop)"
    else if status == "processing" then "Processing transcription..."
    else if status == "ready" then "Ready (SUPER+D to start)"
    else "Daemon not running"
  }

  /** The record `get_waybar_output` serialises: icon, tooltip and CSS
      class for a shown status, model name and animation frame. */
  function Render(status: string, model: string, frame: nat): (out: map<string, string>)
    ensures out.Keys == {"text", "tooltip", "class"}
    ensures out["class"] == if status in {"recording", "processing", "ready"} then status else "error"
    ensures out["class"] == "recording" ==> out["text"] == RecordingFrames[frame % |RecordingFrames|]
    ensures out["class"] == "processing" ==> out["text"] == "dictation"
    ensures out["class"] == "ready" || out["class"] == "error" ==> out["text"] == Dot
    ensures StartsWith(out["tooltip"], Headline(status) + "\n" + ModelLine(model))
  {
    var known := status in {"recording", "processing", "ready"};
    var cls := if known then status else "error";
    var icon :=
      if status == "recording" then RecordingFrames[frame % |RecordingFrames|]
      else if status == "processing" then "dictation"
      else Dot;
    var head := Headline(status) + "\n" + ModelLine(model);
    var tooltip := if known then head + "\n" + HintLine else head;
    assert StartsWith(tooltip, head) by {
      assert tooltip[..|head|] == head;
    }
    map["text" := icon, "tooltip" := tooltip, "class" := cls]
  }

  /** The lines of a tooltip, with or without the model-switch hint. */
  function TooltipLines(status: string, model: string, hint: bool): seq<string> {
    [Headline(status), ModelLine(model)] + (if hint then [HintLine] else [])
  }

  /** The headline is a single line. */
  lemma HeadlineOneLine(status: string)
    ensures '\n' !in Headline(status)
  {
    if status == "recording" {
      assert '\n' !in "Recording... (SUPER+D to stop)";
    } else if status == "processing" {
      assert '\n' !in "Processing transcription...";
    } else if status == "ready" {
      assert '\n' !in "Ready (SUPER+D to start)";
    } else {
      assert '\n' !in "Daemon not running";
    }
  }

  /** The tooltip says the daemon is not running exactly for a status the
      bar does not know. */
  lemma HeadlineNotRunning(status: string)
    ensures Headline(status) == "Daemon not running" <==>
      status !in {"recording", "processing", "ready"}
  {
  }

  lemma JoinTwo(a: string, b: string, sep: string)
    ensures Join([a, b], sep) == a + sep + b
  {
    assert [a, b][1..] == [b];
  }

  lemma JoinThree(a: string, b: string, c: string, sep: string)
    ensures Join([a, b, c], sep) == a + sep + b + sep + c
  {
    assert [a, b, c][1..] == [b, c];
    JoinTwo(b, c, sep);
  }

  /** The tooltip is its lines joined by newlines. */
  lemma TooltipIsJoin(status: string, model: string, frame: nat)
    ensures Render(status, model, frame)["tooltip"] ==
      Join(TooltipLines(status, model, Render(status, model, frame)["class"] != "error"), "\n")
  {
    if status in {"recording", "processing", "ready"} {
      JoinThree(Headline(status), ModelLine(model), HintLine, "\n");
    } else {
      JoinTwo(Headline(status), ModelLine(model), "\n");
    }
  }

  /** No tooltip line holds a newline when the model name does not. */
  lemma TooltipLinesOneLine(status: string, model: string, hint: bool)
    requires '\n' !in model
    ensures forall k :: 0 <= k < |TooltipLines(status, model, hint)| ==>
      '\n' !in TooltipLines(status, model, hint)[k]
  {
    HeadlineOneLine(status);
    assert '\n' !in ModelLine(model);
    assert '\n' !in HintLine;
  }

  /** The tooltip splits into its lines: the headline, the model, and the
      model-switch hint except in the error state, for a model name on one
      line. */
  lemma TooltipSplit(status: string, model: string, frame: nat)
    requires '\n' !in model
    ensures SplitOn(Render(status, model, frame)["tooltip"], "\n") ==
      TooltipLines(status, model, Render(status, model, frame)["class"] != "error")
  {
    var hint := Render(status, model, frame)["class"] != "error";
    TooltipIsJoin(status, model, frame);
    TooltipLinesOneLine(status, model, hint);
    SplitJoin(TooltipLines(status, model, hint), '\n');
  }

  /** The CSS class is the daemon's status as the socket reports it:
      never "processing", always one of recording, ready and error. */
  lemma ClassFollowsDaemon(socketExists: bool, reply: Option<string>, flagExists: bool,
                           model: string, frame: nat)
    ensures Render(AfterFlagCheck(DaemonStatus(socketExists, reply), flagExists), model, frame)["class"]
      == DaemonStatus(socketExists, reply)
    ensures Render(AfterFlagCheck(DaemonStatus(socketExists, reply), flagExists), model, frame)["class"]
      in {"recording", "ready", "error"}
  {
    OverrideNeverFires(socketExists, reply, flagExists);
  }

  /** The module's state across refreshes: the global `frame_index`. */
  class StatusBar {
    var frameIndex: nat

    constructor()
      ensures frameIndex == 0
    {
      frameIndex := 0;
    }

    /** `get_waybar_output`: renders the current state and advances the
        animation by one frame exactly when the bar shows recording. */
    method GetWaybarOutput(socketExists: bool, reply: Option<string>, flagExists: bool,
                           service: ServiceFile) returns (out: map<string, string>)
      modifies this
      ensures out == Render(AfterFlagCheck(DaemonStatus(socketExists, reply), flagExists),
                            CurrentModel(service), old(frameIndex))
      ensures frameIndex == old(frameIndex) + (if out["class"] == "recording" then 1 else 0)
    {
      var status := DaemonStatus(socketExists, reply);
      var model := CurrentModel(service);
      if flagExists && status == "READY" {
        status := "processing";
      }
      out := Render(status, model, frameIndex);
      if status == "recording" {
        frameIndex := frameIndex + 1;
      }
    }
  }
}
