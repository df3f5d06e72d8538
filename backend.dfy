/** The two transcription backends of whisper_daemon.py, with the foreign
    process and the HTTP exchange replaced by their observable outcome:
    whisper-cli (`_transcribe_cli`) run once per utterance, and the
    whisper-server (`_transcribe_server`, readiness probes of
    `_start_whisper_server`) kept alive across utterances. */
module Backend {
  import opened Wrappers
  import opened Text

  /** Python truthiness of the optional vocabulary prompt (`if self.vocab_prompt:`):
      an empty prompt counts as none. */
  predicate HasPrompt(prompt: Option<string>) {
    prompt.Some? && prompt.value != []
  }

  /** The argument vector of one whisper-cli run: model, audio file, no
      timestamps, minimal output, and the prompt only when there is one. */
  function CliArgs(cli: string, model: string, audio: string, prompt: Option<string>): (argv: seq<string>)
    ensures |argv| == if HasPrompt(prompt) then 9 else 7
    ensures argv[..7] == [cli, "-m", model, "-f", audio, "-nt", "--no-prints"]
    ensures HasPrompt(prompt) ==> argv[7..] == ["--prompt", prompt.value]
  {
    [cli, "-m", model, "-f", audio, "-nt", "--no-prints"]
      + (if HasPrompt(prompt) then ["--prompt", prompt.value] else [])
  }

  /** How the whisper-cli run ended: it exited with a status and its
      standard output, or `subprocess.run` raised (60-second timeout, missing
      or unrunnable executable). */
  datatype CliRun = Exited(code: int, stdout: string) | Raised

  /** whisper-cli's own log lines, recognised by their prefix on the
      unstripped line. */
  predicate IsDiagnostic(line: string) {
    StartsWith(line, "whisper_") || StartsWith(line, "system_info") || StartsWith(line, "main:")
  }

  /** A line the filter keeps: not blank and not a log line. */
  predicate IsTextLine(line: string) {
    Strip(line) != [] && !IsDiagnostic(line)
  }

  /** The kept lines, stripped, in output order. */
  function TextLines(lines: seq<string>): (kept: seq<string>)
    ensures forall k :: 0 <= k < |kept| ==> kept[k] != [] && Trimmed(kept[k])
    decreases |lines|
  {
    if lines == [] then []
    else (if IsTextLine(lines[0]) then [Strip(lines[0])] else []) + TextLines(lines[1..])
  }

  lemma {:induction false} TextLinesAvoid(lines: seq<string>, c: char)
    requires forall k :: 0 <= k < |lines| ==> c !in lines[k]
    ensures forall k :: 0 <= k < |TextLines(lines)| ==> c !in TextLines(lines)[k]
    decreases |lines|
  {
    if lines != [] {
      TextLinesAvoid(lines[1..], c);
      if c in Strip(lines[0]) {
        StripInside(lines[0], c);
      }
    }
  }

  /** The lines of whisper-cli's output: the stripped output split at newlines. */
  function OutputLines(stdout: string): (lines: seq<string>)
    ensures |lines| >= 1
    ensures forall k :: 0 <= k < |lines| ==> '\n' !in lines[k]
  {
    var lines := SplitOn(Strip(stdout), "\n");
    assert forall k :: 0 <= k < |lines| ==> '\n' !in lines[k] by {
      forall k | 0 <= k < |lines| ensures '\n' !in lines[k] {
        ContainsChar(lines[k], '\n');
      }
    }
    lines
  }

  /** The transcript `_transcribe_cli` returns: empty after a non-zero exit,
      otherwise the kept lines joined by single spaces. It is one line with
      no surrounding whitespace. */
  function CliText(code: int, stdout: string): (text: string)
    ensures Trimmed(text)
    ensures '\n' !in text
    ensures code != 0 ==> text == []
  {
    if code != 0 then []
    else
      var lines := OutputLines(stdout);
      var joined := Join(TextLines(lines), " ");
      assert '\n' !in joined by {
        TextLinesAvoid(lines, '\n');
        JoinAvoids(TextLines(lines), " ", '\n');
      }
      assert '\n' !in Strip(joined) by {
        if '\n' in Strip(joined) {
          StripInside(joined, '\n');
        }
      }
      Strip(joined)
  }

  /** After a zero exit the final strip changes nothing: the transcript is
      exactly the single-space join of the kept lines, and it is empty
      exactly when no line is kept. */
  lemma CliTextIsJoin(stdout: string)
    ensures CliText(0, stdout) == Join(TextLines(OutputLines(stdout)), " ")
    ensures CliText(0, stdout) == [] <==> TextLines(OutputLines(stdout)) == []
  {
    var kept := TextLines(OutputLines(stdout));
    JoinTrimmed(kept, " ");
    StripTrimmed(Join(kept, " "));
  }

  /** The filter works line by line: the kept lines of two blocks of output
      are those of the first followed by those of the second. */
  lemma {:induction false} TextLinesAppend(a: seq<string>, b: seq<string>)
    ensures TextLines(a + b) == TextLines(a) + TextLines(b)
    decreases |a|
  {
    if a == [] {
      assert a + b == b;
    } else {
      assert (a + b)[1..] == a[1..] + b;
      TextLinesAppend(a[1..], b);
    }
  }

  lemma {:induction false} DiagnosticLinesDropped(lines: seq<string>)
    requires forall k :: 0 <= k < |lines| ==> IsDiagnostic(lines[k])
    ensures TextLines(lines) == []
    decreases |lines|
  {
    if lines != [] {
      DiagnosticLinesDropped(lines[1..]);
    }
  }

  /** A log line begins with a letter, never with whitespace. */
  lemma DiagnosticStart(line: string)
    requires IsDiagnostic(line)
    ensures line != [] && !IsSpace(line[0])
  {
    if StartsWith(line, "whisper_") {
      assert line[0] == line[..8][0] == 'w';
    } else if StartsWith(line, "system_info") {
      assert line[0] == line[..11][0] == 's';
    } else {
      assert line[0] == line[..5][0] == 'm';
    }
  }

  /** A prefix without whitespace survives cutting trailing whitespace. */
  lemma PrefixSurvivesCut(x: string, e: nat, p: string)
    requires e <= |x| && AllSpace(x[e..]) && NoSpace(p)
    ensures StartsWith(x[..e], p) == StartsWith(x, p)
  {
    if StartsWith(x, p) && e < |p| {
      PrefixAt(x, p, e);
      SpaceAt(x, e);
      assert false;
    }
    if StartsWith(x[..e], p) {
      assert x[..e][..|p|] == x[..|p|];
    }
  }

  /** Whether a line is a log line does not depend on its trailing whitespace. */
  lemma RightCutDiagnostic(x: string, e: nat)
    requires e <= |x| && AllSpace(x[e..])
    ensures IsDiagnostic(x[..e]) == IsDiagnostic(x)
  {
    PrefixSurvivesCut(x, e, "whisper_");
    PrefixSurvivesCut(x, e, "system_info");
    PrefixSurvivesCut(x, e, "main:");
  }

  /** The output's outer strip only touches the ends: lines that begin and
      end with non-blank characters, padded with whitespace and joined by
      newlines, are split back into exactly those lines. */
  lemma OutputLinesOfPadded(a: string, init: seq<string>, last: string, b: string)
    requires AllSpace(a) && AllSpace(b)
    requires forall k :: 0 <= k < |init| ==> '\n' !in init[k]
    requires '\n' !in last && |last| > 0 && !IsSpace(last[|last| - 1])
    requires init != [] ==> |init[0]| > 0 && !IsSpace(init[0][0])
    requires init == [] ==> !IsSpace(last[0])
    ensures OutputLines(a + (Join(init + [last], "\n") + b)) == init + [last]
  {
    var lines := init + [last];
    var j := Join(lines, "\n");
    assert a + (j + b) == a + j + b;
    assert |lines[0]| > 0 && !IsSpace(lines[0][0]) by {
      if init != [] {
        assert lines[0] == init[0];
      }
    }
    forall k | 0 <= k < |lines| ensures '\n' !in lines[k] {
      if k < |init| {
        assert lines[k] == init[k];
      }
    }
    JoinFirst(lines, "\n");
    JoinLast(init, last, "\n");
    StripPadded(a, j, b);
    StripTrimmed(j);
    SplitJoin(lines, '\n');
  }

  /** Where the outer strip may cut the speech line: at its first and last
      non-blank characters, or not at all. */
  lemma CutBounds(speech: string, lo: nat, hi: nat)
    requires !AllSpace(speech)
    requires lo == 0 || lo == SkipForward(speech, 0)
    requires hi == |speech| || hi == SkipBackward(speech, |speech|)
    ensures lo <= SkipForward(speech, 0) < SkipBackward(speech, |speech|) <= hi <= |speech|
    ensures !IsSpace(speech[SkipForward(speech, 0)])
    ensures !IsSpace(speech[SkipBackward(speech, |speech|) - 1])
    ensures lo == SkipForward(speech, 0) ==> !IsSpace(speech[lo])
    ensures hi == SkipBackward(speech, |speech|) ==> !IsSpace(speech[hi - 1])
    ensures AllSpace(speech[..lo]) && AllSpace(speech[hi..])
    ensures AllSpace(speech[SkipBackward(speech, |speech|)..])
  {
    var f := SkipForward(speech, 0);
    var g := SkipBackward(speech, |speech|);
    StripCuts(speech);
    assert f < g;
    if lo != 0 {
      SkippedHead(speech);
    }
    SkippedTail(speech, hi);
    SkippedTail(speech, g);
  }

  /** Cutting surrounding whitespace does not change what the line strips to. */
  lemma CutKeepsText(speech: string, lo: nat, hi: nat)
    requires lo <= hi <= |speech| && AllSpace(speech[..lo]) && AllSpace(speech[hi..])
    ensures Strip(speech[lo..hi]) == Strip(speech)
  {
    Cuts(speech, lo, hi);
    StripPadded(speech[..lo], speech[lo..hi], speech[hi..]);
  }

  /** Cutting the speech line's outer whitespace does not turn it into a
      log line. */
  lemma CutKeepsSpeech(speech: string, lo: nat, hi: nat)
    requires !AllSpace(speech) && !IsDiagnostic(speech) && !IsDiagnostic(Strip(speech))
    requires lo == 0 || lo == SkipForward(speech, 0)
    requires hi == |speech| || hi == SkipBackward(speech, |speech|)
    ensures lo <= hi <= |speech|
    ensures !IsDiagnostic(speech[lo..hi])
  {
    var f := SkipForward(speech, 0);
    var g := SkipBackward(speech, |speech|);
    CutBounds(speech, lo, hi);
    if lo == 0 {
      RightCutDiagnostic(speech, hi);
      assert speech[lo..hi] == speech[..hi];
    } else {
      StripCuts(speech);
      SliceCutDiagnostic(speech, f, hi);
      SliceCutDiagnostic(speech, f, g);
    }
  }

  /** `RightCutDiagnostic` for a slice that starts inside the line. */
  lemma SliceCutDiagnostic(s: string, lo: nat, hi: nat)
    requires lo <= hi <= |s| && AllSpace(s[hi..])
    ensures IsDiagnostic(s[lo..hi]) == IsDiagnostic(s[lo..])
  {
    DropSlice(s, lo, hi);
    RightCutDiagnostic(s[lo..], hi - lo);
  }

  /** A log line that ends the output loses its trailing whitespace to the
      outer strip and stays a non-empty log line. */
  lemma LogLineCut(line: string)
    requires IsDiagnostic(line)
    ensures 0 < SkipBackward(line, |line|)
    ensures !IsSpace(line[SkipBackward(line, |line|) - 1])
    ensures IsDiagnostic(line[..SkipBackward(line, |line|)])
    ensures AllSpace(line[SkipBackward(line, |line|)..])
  {
    var e := SkipBackward(line, |line|);
    DiagnosticStart(line);
    assert AllSpace(line[e..]) by {
      forall m | 0 <= m < |line| - e ensures IsSpace(line[e..][m]) {
        assert line[e..][m] == line[e + m];
      }
    }
    RightCutDiagnostic(line, e);
  }

  /** Whitespace cut from the front of the first line is cut from the front
      of the whole output. */
  lemma FrontCut(before: seq<string>, speech: string, after: seq<string>, lo: nat)
    requires lo <= |speech| && (before != [] ==> lo == 0)
    ensures Join(before + [speech] + after, "\n")
      == speech[..lo] + Join(before + [speech[lo..]] + after, "\n")
  {
    if before == [] {
      Cuts(speech, lo, lo);
      assert before + [speech] + after == [speech[..lo] + speech[lo..]] + after;
      assert before + [speech[lo..]] + after == [speech[lo..]] + after;
      JoinFrontPad(speech[..lo], speech[lo..], after, "\n");
    } else {
      assert speech[..lo] == [] && speech[lo..] == speech;
    }
  }

  lemma KeptEndingSpeech(before: seq<string>, line: string)
    requires forall k :: 0 <= k < |before| ==> IsDiagnostic(before[k])
    requires IsTextLine(line)
    ensures TextLines(before + [line]) == [Strip(line)]
  {
    DiagnosticLinesDropped(before);
    LineKept(line);
    TextLinesAppend(before, [line]);
  }

  lemma KeptAroundSpeech(before: seq<string>, line: string, after: seq<string>)
    requires forall k :: 0 <= k < |before| ==> IsDiagnostic(before[k])
    requires forall k :: 0 <= k < |after| ==> IsDiagnostic(after[k])
    requires IsTextLine(line)
    ensures TextLines(before + [line] + after) == [Strip(line)]
  {
    var kept: seq<string> := [Strip(line)];
    KeptEndingSpeech(before, line);
    DiagnosticLinesDropped(after);
    TextLinesAppend(before + [line], after);
    assert TextLines(before + [line] + after) == kept + [];
  }

  lemma LineKept(line: string)
    requires IsTextLine(line)
    ensures TextLines([line]) == [Strip(line)]
  {
    assert [line][1..] == [];
  }

  /** Output that ends with the speech line splits into the log lines before
      it and the speech line cut at both ends by the outer strip. */
  lemma OutputEndsWithSpeech(before: seq<string>, speech: string, lo: nat, hi: nat)
    requires forall k :: 0 <= k < |before| ==> '\n' !in before[k]
    requires before != [] ==> |before[0]| > 0 && !IsSpace(before[0][0])
    requires lo < hi <= |speech| && '\n' !in speech
    requires AllSpace(speech[..lo]) && AllSpace(speech[hi..])
    requires before != [] ==> lo == 0
    requires before == [] ==> !IsSpace(speech[lo])
    requires !IsSpace(speech[hi - 1])
    ensures OutputLines(Join(before + [speech], "\n")) == before + [speech[lo..hi]]
  {
    var a, core, b := speech[..lo], speech[lo..hi], speech[hi..];
    Cuts(speech, lo, hi);
    assert before + [speech] + [] == before + [speech];
    assert before + [speech[lo..]] + [] == before + [core + b];
    assert before == [] ==> core[0] == speech[lo];
    assert |core| > 0 && core[|core| - 1] == speech[hi - 1];
    SliceAvoids(speech, lo, hi, '\n');
    var whole := Join(before + [speech], "\n");
    var inner := Join(before + [core], "\n");
    FrontCut(before, speech, [], lo);
    JoinBackPad(before, core, b, "\n");
    assert whole == a + (inner + b);
    OutputLinesOfPadded(a, before, core, b);
  }

  /** Output that ends with log lines after the speech line splits into the
      same lines, with the speech line's leading whitespace cut when it comes
      first and the last log line's trailing whitespace cut. */
  lemma OutputEndsWithLog(before: seq<string>, speech: string, after: seq<string>, lo: nat, e: nat)
    requires forall k :: 0 <= k < |before| ==> '\n' !in before[k]
    requires forall k :: 0 <= k < |after| ==> '\n' !in after[k]
    requires before != [] ==> |before[0]| > 0 && !IsSpace(before[0][0])
    requires lo < |speech| && '\n' !in speech && AllSpace(speech[..lo])
    requires before != [] ==> lo == 0
    requires before == [] ==> !IsSpace(speech[lo])
    requires after != [] && 0 < e <= |after[|after| - 1]|
    requires !IsSpace(after[|after| - 1][e - 1]) && AllSpace(after[|after| - 1][e..])
    ensures OutputLines(Join(before + [speech] + after, "\n"))
      == before + [speech[lo..]] + after[..|after| - 1] + [after[|after| - 1][..e]]
  {
    var n := |after| - 1;
    var last := after[n];
    var a, y, b := speech[..lo], last[..e], last[e..];
    var init := before + [speech[lo..]] + after[..n];
    Cuts(speech, lo, lo);
    Cuts(last, e, e);
    assert before + [speech[lo..]] + after == init + [y + b];
    assert |y| > 0 && y[|y| - 1] == last[e - 1];
    SliceAvoids(speech, lo, |speech|, '\n');
    SliceAvoids(last, 0, e, '\n');
    assert init[0] == (if before == [] then speech[lo..] else before[0]);
    assert forall k :: 0 <= k < |init| ==> '\n' !in init[k] by {
      forall k | 0 <= k < |init| ensures '\n' !in init[k] {
        if k < |before| {
          assert init[k] == before[k];
        } else if k > |before| {
          assert init[k] == after[k - |before| - 1];
        }
      }
    }
    var whole := Join(before + [speech] + after, "\n");
    var inner := Join(init + [y], "\n");
    FrontCut(before, speech, after, lo);
    JoinBackPad(init, y, b, "\n");
    assert whole == a + (inner + b);
    OutputLinesOfPadded(a, init, y, b);
  }

  /** Log lines followed by the speech line, which ends the output: only the
      speech line is kept. */
  lemma KeptWhenSpeechLast(before: seq<string>, speech: string, after: seq<string>, lo: nat, hi: nat)
    requires forall k :: 0 <= k < |before| ==> IsDiagnostic(before[k]) && '\n' !in before[k]
    requires after == []
    requires lo < hi <= |speech| && '\n' !in speech
    requires AllSpace(speech[..lo]) && AllSpace(speech[hi..])
    requires before != [] ==> lo == 0
    requires before == [] ==> !IsSpace(speech[lo])
    requires !IsSpace(speech[hi - 1]) && IsTextLine(speech[lo..hi])
    ensures TextLines(OutputLines(Join(before + [speech] + after, "\n"))) == [Strip(speech[lo..hi])]
  {
    AppendNothing(before + [speech]);
    if before != [] {
      DiagnosticStart(before[0]);
    }
    OutputEndsWithSpeech(before, speech, lo, hi);
    KeptEndingSpeech(before, speech[lo..hi]);
  }

  /** Log lines, the speech line, then more log lines: only the speech line
      is kept. */
  lemma KeptWhenLogLast(before: seq<string>, speech: string, after: seq<string>, lo: nat)
    requires forall k :: 0 <= k < |before| ==> IsDiagnostic(before[k]) && '\n' !in before[k]
    requires forall k :: 0 <= k < |after| ==> IsDiagnostic(after[k]) && '\n' !in after[k]
    requires after != []
    requires lo < |speech| && '\n' !in speech && AllSpace(speech[..lo])
    requires before != [] ==> lo == 0
    requires before == [] ==> !IsSpace(speech[lo])
    requires IsTextLine(speech[lo..])
    ensures TextLines(OutputLines(Join(before + [speech] + after, "\n"))) == [Strip(speech[lo..])]
  {
    var n := |after| - 1;
    var last := after[n];
    var e := SkipBackward(last, |last|);
    if before != [] {
      DiagnosticStart(before[0]);
    }
    LogLineCut(last);
    var rest := after[..n] + [last[..e]];
    LogLinesCut(after[..n], last[..e]);
    OutputEndsWithLog(before, speech, after, lo, e);
    AppendAssoc(before + [speech[lo..]], after[..n], [last[..e]]);
    var lines := OutputLines(Join(before + [speech] + after, "\n"));
    assert lines == before + [speech[lo..]] + rest;
    KeptAroundSpeech(before, speech[lo..], rest);
  }

  lemma LogLinesCut(init: seq<string>, last: string)
    requires forall k :: 0 <= k < |init| ==> IsDiagnostic(init[k]) && '\n' !in init[k]
    requires IsDiagnostic(last)
    ensures forall k :: 0 <= k < |init + [last]| ==> IsDiagnostic((init + [last])[k])
  {
    var rest := init + [last];
    forall k | 0 <= k < |rest| ensures IsDiagnostic(rest[k]) {
      if k < |init| {
        assert rest[k] == init[k];
      }
    }
  }

  /** Output made of whisper-cli's log lines around one line of speech
      gives that line, stripped, alone. */
  lemma CliKeepsOnlySpeech(before: seq<string>, speech: string, after: seq<string>)
    requires forall k :: 0 <= k < |before| ==> IsDiagnostic(before[k]) && '\n' !in before[k]
    requires forall k :: 0 <= k < |after| ==> IsDiagnostic(after[k]) && '\n' !in after[k]
    requires Strip(speech) != [] && '\n' !in speech
    requires !IsDiagnostic(speech) && !IsDiagnostic(Strip(speech))
    ensures CliText(0, Join(before + [speech] + after, "\n")) == Strip(speech)
  {
    var stdout := Join(before + [speech] + after, "\n");
    var lo := if before == [] then SkipForward(speech, 0) else 0;
    var hi := if after == [] then SkipBackward(speech, |speech|) else |speech|;
    CutBounds(speech, lo, hi);
    CutKeepsText(speech, lo, hi);
    CutKeepsSpeech(speech, lo, hi);
    if after == [] {
      assert hi == SkipBackward(speech, |speech|);
      KeptWhenSpeechLast(before, speech, after, lo, hi);
    } else {
      SliceToEnd(speech, lo);
      KeptWhenLogLast(before, speech, after, lo);
    }
    OneLineKept(stdout, Strip(speech));
  }

  /** When exactly one line is kept, the transcript is that line. */
  lemma OneLineKept(stdout: string, t: string)
    requires TextLines(OutputLines(stdout)) == [t]
    ensures CliText(0, stdout) == t
  {
    CliTextIsJoin(stdout);
    assert Join([t], " ") == t;
  }

  /** The JSON value under "text" in the server's reply: missing, a string,
      or some other JSON value. */
  datatype JsonText = Absent | Str(s: string) | NotStr

  /** The body of the server's reply: a JSON object, another JSON value, or
      text that is not JSON. */
  datatype JsonBody = Object(text: JsonText) | NotObject | Malformed

  /** The outcome of the POST to /inference: a response, or a failure of
      the request itself (connection, 30-second timeout, unreadable file). */
  datatype HttpReply = Response(status: int, body: JsonBody) | RequestFailed

  /** The transcript `_transcribe_server` returns: the stripped "text" of a
      200 response; every other outcome, including the exceptions raised by
      a non-object body or a non-string value, gives the empty string. */
  function ServerText(reply: HttpReply): (text: string)
    ensures Trimmed(text)
    ensures text != [] ==>
      (reply.Response? && reply.status == 200 && reply.body.Object?
       && reply.body.text.Str? && text == Strip(reply.body.text.s))
    ensures reply.Response? && reply.status == 200 && reply.body.Object? && reply.body.text.Str? ==>
      text == Strip(reply.body.text.s)
    ensures reply.Response? && reply.status == 200 && reply.body == Object(Absent) ==> text == []
  {
    match reply
    case RequestFailed => []
    case Response(status, body) =>
      if status != 200 then []
      else
        match body
        case Object(Absent) => Strip([])
        case Object(Str(s)) => Strip(s)
        case Object(NotStr) => []
        case NotObject => []
        case Malformed => []
  }

  /** A failed request or any status other than 200 yields no text. */
  lemma ServerFailureIsEmpty(reply: HttpReply)
    requires reply.RequestFailed? || reply.status != 200
    ensures ServerText(reply) == []
  {
  }

  /** A 200 reply carrying a transcript without surrounding whitespace
      gives that transcript back unchanged. */
  lemma ServerEchoesText(t: string)
    requires Trimmed(t)
    ensures ServerText(Response(200, Object(Str(t)))) == t
  {
    StripTrimmed(t);
  }

  /** Whitespace the server puts around the transcript never reaches the caller. */
  lemma ServerIgnoresPadding(pad1: string, t: string, pad2: string)
    requires AllSpace(pad1) && AllSpace(pad2)
    ensures ServerText(Response(200, Object(Str(pad1 + t + pad2)))) ==
      ServerText(Response(200, Object(Str(t))))
  {
    StripPadded(pad1, t, pad2);
  }

  /** The form fields sent with the audio: decoding settings, JSON reply, and
      the prompt only when there is one. */
  function ServerForm(prompt: Option<string>): (form: map<string, string>)
    ensures form.Keys == {"temperature", "temperature_inc", "response_format"}
      + (if HasPrompt(prompt) then {"prompt"} else {})
    ensures form["temperature"] == "0.0" && form["temperature_inc"] == "0.2"
    ensures form["response_format"] == "json"
    ensures HasPrompt(prompt) ==> form["prompt"] == prompt.value
  {
    var base := map["temperature" := "0.0", "temperature_inc" := "0.2", "response_format" := "json"];
    if HasPrompt(prompt) then base["prompt" := prompt.value] else base
  }

  /** whisper-server's thread count: `os.cpu_count() or 4`. */
  function ServerThreads(cpuCount: Option<nat>): (n: nat)
    ensures n >= 1
    ensures cpuCount.Some? && cpuCount.value > 0 ==> n == cpuCount.value
    ensures cpuCount.None? || cpuCount.value == 0 ==> n == 4
  {
    if cpuCount.Some? && cpuCount.value > 0 then cpuCount.value else 4
  }

  /** One readiness probe (GET / on the server): an HTTP status, or a
      request exception (refused connection, one-second timeout). */
  datatype Probe = HttpStatus(code: int) | NoAnswer

  /** 200 and 404 both show that the server is answering. */
  predicate Answers(p: Probe) {
    p.HttpStatus? && (p.code == 200 || p.code == 404)
  }

  /** The outcome of the k-th probe; probes beyond the listed ones are not answered. */
  function ProbeAt(probes: seq<Probe>, k: nat): Probe {
    if k < |probes| then probes[k] else NoAnswer
  }

  /** The first probe among attempts `from` .. `budget - 1` that the server
      answers. */
  function FirstAnswerFrom(probes: seq<Probe>, budget: nat, from: nat): (r: Option<nat>)
    ensures r.Some? ==> from <= r.value < budget && Answers(ProbeAt(probes, r.value))
    ensures r.Some? ==> forall j :: from <= j < r.value ==> !Answers(ProbeAt(probes, j))
    ensures r.None? ==> forall j :: from <= j < budget ==> !Answers(ProbeAt(probes, j))
    decreases budget - from
  {
    if from >= budget then None
    else if Answers(ProbeAt(probes, from)) then Some(from)
    else FirstAnswerFrom(probes, budget, from + 1)
  }

  /** The first of the `budget` probes that fit in the 30-second window
      that the server answers, if any. */
  function FirstAnswer(probes: seq<Probe>, budget: nat): (r: Option<nat>)
    ensures r.Some? ==> r.value < budget && Answers(ProbeAt(probes, r.value))
    ensures r.Some? ==> forall j :: 0 <= j < r.value ==> !Answers(ProbeAt(probes, j))
    ensures r.None? ==> forall j :: 0 <= j < budget ==> !Answers(ProbeAt(probes, j))
  {
    FirstAnswerFrom(probes, budget, 0)
  }

  /** The server is taken as started exactly when one of the probes inside
      the window is answered. */
  lemma FirstAnswerExact(probes: seq<Probe>, budget: nat)
    ensures FirstAnswer(probes, budget).Some? <==>
      exists k :: 0 <= k < budget && Answers(ProbeAt(probes, k))
  {
  }

  /** Granting the probes more time never turns an answered start into a
      failed one, and the answer found is the same. */
  lemma {:induction false} FirstAnswerStable(probes: seq<Probe>, budget: nat, more: nat)
    requires budget <= more
    requires FirstAnswer(probes, budget).Some?
    ensures FirstAnswer(probes, more) == FirstAnswer(probes, budget)
  {
    var k := FirstAnswer(probes, budget).value;
    assert Answers(ProbeAt(probes, k)) && k < more;
    assert FirstAnswer(probes, more).Some?;
    assert FirstAnswer(probes, more).value == k;
  }

  /** The text of one utterance from whichever backend `server_mode`
      selects; None when the whisper-cli run raised, which
      `_transcribe_and_type` catches and only logs. The server path never
      raises: `_transcribe_server` turns every failure into "". */
  function Transcript(serverMode: bool, cli: CliRun, server: HttpReply): (t: Option<string>)
    ensures t.None? <==> !serverMode && cli.Raised?
    ensures t.Some? ==> Trimmed(t.value)
    ensures serverMode ==> t == Some(ServerText(server))
    ensures !serverMode && cli.Exited? ==> t == Some(CliText(cli.code, cli.stdout))
  {
    if serverMode then Some(ServerText(server))
    else
      match cli
      case Raised => None
      case Exited(code, stdout) => Some(CliText(code, stdout))
  }
}
