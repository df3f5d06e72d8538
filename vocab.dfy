/** The vocabulary-prompt loader, `_load_vocab` of whisper_daemon.py: the
    lines of a file become a comma-separated list of words that biases the
    recognition backend. */
module Vocab {
  import opened Wrappers
  import opened Text

  /** What opening and reading the vocabulary file yields: it does not exist,
      opening or reading it raised, or its lines (each with its line ending). */
  datatype VocabFile = NotFound | ReadError | Lines(lines: seq<string>)

  /** A word as the loader emits it. */
  predicate IsWord(w: string) {
    w != [] && Trimmed(w) && '#' !in w && ',' !in w
  }

  /** `f` applied to each element, the results concatenated in order. */
  function FlatMap<X, Y>(f: X -> seq<Y>, xs: seq<X>): seq<Y>
    decreases |xs|
  {
    if xs == [] then [] else FlatMap(f, xs[..|xs| - 1]) + f(xs[|xs| - 1])
  }

  /** What the comprehension keeps of one piece: the piece stripped, or
      nothing when that is empty. */
  function StrippedPiece(piece: string): (ws: seq<string>)
    ensures |ws| <= 1
    ensures forall k :: 0 <= k < |ws| ==> ws[k] != [] && Trimmed(ws[k])
  {
    var w := Strip(piece);
    if w == [] then [] else [w]
  }

  /** `[w.strip() for w in pieces if w.strip()]`. */
  function NonEmptyStripped(pieces: seq<string>): seq<string> {
    FlatMap(StrippedPiece, pieces)
  }

  /** The words one line contributes: the text before its first '#',
      stripped; if that is not empty, its comma-separated pieces, stripped,
      the empty ones dropped. */
  function LineWords(line: string): seq<string> {
    var body := Strip(SplitOn(line, "#")[0]);
    if body == [] then [] else NonEmptyStripped(SplitOn(body, ","))
  }

  /** The words of a whole file, in file order. */
  function VocabWords(lines: seq<string>): seq<string> {
    FlatMap(LineWords, lines)
  }

  /** `_load_vocab`: no prompt when no file name was given (None or empty),
      when the file is missing or when reading it fails; otherwise the words
      of its lines, in order, joined with ", ". */
  method LoadVocab(vocabFile: Option<string>, file: VocabFile) returns (prompt: Option<string>)
    ensures prompt.Some? <==> vocabFile.Some? && vocabFile.value != [] && file.Lines?
    ensures prompt.Some? ==> prompt.value == Join(VocabWords(file.lines), ", ")
  {
    if vocabFile.None? || vocabFile.value == [] {
      return None;
    }
    match file
    case NotFound =>
      prompt := None;
    case ReadError =>
      prompt := None;
    case Lines(lines) =>
      var words: seq<string> := [];
      for i := 0 to |lines|
        invariant words == VocabWords(lines[..i])
      {
        assert lines[..i + 1][..i] == lines[..i];
        var line := Strip(SplitOn(lines[i], "#")[0]);
        if line != [] {
          words := words + NonEmptyStripped(SplitOn(line, ","));
        }
      }
      assert lines[..|lines|] == lines;
      prompt := Some(Join(words, ", "));
  }

  lemma FlatMapOne<X, Y>(f: X -> seq<Y>, x: X)
    ensures FlatMap(f, [x]) == f(x)
  {
    assert [x][..0] == [];
    assert FlatMap(f, [x]) == FlatMap(f, []) + f(x);
  }

  /** Every kept piece is non-empty and trimmed. */
  lemma {:induction false} NonEmptyStrippedClean(pieces: seq<string>)
    ensures forall k :: 0 <= k < |NonEmptyStripped(pieces)| ==>
      NonEmptyStripped(pieces)[k] != [] && Trimmed(NonEmptyStripped(pieces)[k])
    decreases |pieces|
  {
    if pieces != [] {
      var n := |pieces| - 1;
      NonEmptyStrippedClean(pieces[..n]);
      assert NonEmptyStripped(pieces) == NonEmptyStripped(pieces[..n]) + StrippedPiece(pieces[n]);
    }
  }

  /** A character that no piece holds is in no kept piece. */
  lemma {:induction false} NonEmptyStrippedAvoids(pieces: seq<string>, c: char)
    requires forall k :: 0 <= k < |pieces| ==> c !in pieces[k]
    ensures forall k :: 0 <= k < |NonEmptyStripped(pieces)| ==> c !in NonEmptyStripped(pieces)[k]
    decreases |pieces|
  {
    if pieces != [] {
      var n := |pieces| - 1;
      NonEmptyStrippedAvoids(pieces[..n], c);
      assert NonEmptyStripped(pieces) == NonEmptyStripped(pieces[..n]) + StrippedPiece(pieces[n]);
      if c in Strip(pieces[n]) {
        StripInside(pieces[n], c);
      }
    }
  }

  /** Every word a line contributes is non-empty, trimmed, and holds neither
      '#' nor ','. */
  lemma LineWordsAreWords(line: string)
    ensures forall k :: 0 <= k < |LineWords(line)| ==> IsWord(LineWords(line)[k])
  {
    var part := SplitOn(line, "#")[0];
    ContainsChar(part, '#');
    var body := Strip(part);
    if body != [] {
      assert '#' !in body by {
        if '#' in body {
          StripInside(part, '#');
        }
      }
      var pieces := SplitOn(body, ",");
      forall k | 0 <= k < |pieces| ensures '#' !in pieces[k] && ',' !in pieces[k] {
        ContainsChar(pieces[k], ',');
        if '#' in pieces[k] {
          SplitPieceInside(body, ",", k, '#');
        }
      }
      NonEmptyStrippedClean(pieces);
      NonEmptyStrippedAvoids(pieces, '#');
      NonEmptyStrippedAvoids(pieces, ',');
    }
  }

  /** Every word of the prompt is non-empty, trimmed, and holds neither '#'
      nor ',': comments and separators never leak into it. */
  lemma {:induction false} VocabWordsAreWords(lines: seq<string>)
    ensures forall k :: 0 <= k < |VocabWords(lines)| ==> IsWord(VocabWords(lines)[k])
    decreases |lines|
  {
    if lines != [] {
      var n := |lines| - 1;
      VocabWordsAreWords(lines[..n]);
      LineWordsAreWords(lines[n]);
      assert VocabWords(lines) == VocabWords(lines[..n]) + LineWords(lines[n]);
    }
  }

  lemma {:induction false} FlatMapAppend<X, Y>(f: X -> seq<Y>, a: seq<X>, b: seq<X>)
    ensures FlatMap(f, a + b) == FlatMap(f, a) + FlatMap(f, b)
    decreases |b|
  {
    if b == [] {
      assert a + b == a;
    } else {
      var n := |b| - 1;
      assert (a + b)[..|a + b| - 1] == a + b[..n];
      assert (a + b)[|a + b| - 1] == b[n];
      FlatMapAppend(f, a, b[..n]);
    }
  }

  /** The words of two files read one after the other are the words of the
      first followed by those of the second: file order is kept. */
  lemma VocabWordsAppend(a: seq<string>, b: seq<string>)
    ensures VocabWords(a + b) == VocabWords(a) + VocabWords(b)
  {
    FlatMapAppend(LineWords, a, b);
  }

  /** The comprehension works piece by piece, keeping order. */
  lemma NonEmptyStrippedAppend(a: seq<string>, b: seq<string>)
    ensures NonEmptyStripped(a + b) == NonEmptyStripped(a) + NonEmptyStripped(b)
  {
    FlatMapAppend(StrippedPiece, a, b);
  }

  lemma SplitWithoutSeparator(x: string, c: char)
    requires c !in x
    ensures SplitOn(x, [c]) == [x]
  {
    ContainsChar(x, c);
  }

  /** A word behind some whitespace holds no ',' and strips back to the word. */
  lemma PaddedWord(pad: string, w: string)
    requires AllSpace(pad) && IsWord(w)
    ensures ',' !in pad + w
    ensures Strip(pad + w) == w
  {
    forall i | 0 <= i < |pad + w| ensures (pad + w)[i] != ',' {
      if i >= |pad| { assert (pad + w)[i] == w[i - |pad|]; }
    }
    StripPadded(pad, w, []);
    assert pad + w + [] == pad + w;
    StripTrimmed(w);
  }

  /** The first piece of a padded ", "-joined list is the padded first word. */
  lemma SplitAfterWord(pad: string, w: string, rest: string)
    requires AllSpace(pad) && IsWord(w)
    ensures SplitOn(pad + (w + ", " + rest), ",") == [pad + w] + SplitOn(" " + rest, ",")
  {
    PaddedWord(pad, w);
    assert pad + (w + ", " + rest) == (pad + w) + [','] + (" " + rest);
    SplitAround(pad + w, ',', " " + rest);
    SplitWithoutSeparator(pad + w, ',');
  }

  lemma NonEmptyStrippedOne(x: string)
    requires Strip(x) != []
    ensures NonEmptyStripped([x]) == [Strip(x)]
  {
    FlatMapOne(StrippedPiece, x);
  }

  lemma SplitJoinedNone(pad: string)
    requires AllSpace(pad)
    ensures NonEmptyStripped(SplitOn(pad, ",")) == []
  {
    assert ',' !in pad by {
      assert forall i :: 0 <= i < |pad| ==> pad[i] != ',';
    }
    SplitWithoutSeparator(pad, ',');
    assert Strip(pad) == [];
    FlatMapOne(StrippedPiece, pad);
  }

  lemma SplitJoinedOne(pad: string, w: string)
    requires AllSpace(pad) && IsWord(w)
    ensures NonEmptyStripped(SplitOn(pad + w, ",")) == [w]
  {
    PaddedWord(pad, w);
    SplitWithoutSeparator(pad + w, ',');
    NonEmptyStrippedOne(pad + w);
  }

  lemma SplitJoinedCons(pad: string, w: string, rest: string, tail: seq<string>)
    requires AllSpace(pad) && IsWord(w)
    requires NonEmptyStripped(SplitOn(" " + rest, ",")) == tail
    ensures NonEmptyStripped(SplitOn(pad + (w + ", " + rest), ",")) == [w] + tail
  {
    SplitAfterWord(pad, w, rest);
    NonEmptyStrippedAppend([pad + w], SplitOn(" " + rest, ","));
    PaddedWord(pad, w);
    NonEmptyStrippedOne(pad + w);
  }

  /** Splitting a ", "-joined list of words on ',' and stripping the pieces
      gives the words back, whatever whitespace precedes the list. */
  lemma {:induction false} SplitJoinedWords(pad: string, words: seq<string>)
    requires AllSpace(pad)
    requires forall k :: 0 <= k < |words| ==> IsWord(words[k])
    ensures NonEmptyStripped(SplitOn(pad + Join(words, ", "), ",")) == words
    decreases |words|
  {
    if words == [] {
      assert pad + Join(words, ", ") == pad;
      SplitJoinedNone(pad);
    } else if |words| == 1 {
      assert pad + Join(words, ", ") == pad + words[0];
      SplitJoinedOne(pad, words[0]);
    } else {
      var rest := Join(words[1..], ", ");
      SplitJoinedWords(" ", words[1..]);
      assert Join(words, ", ") == words[0] + ", " + rest;
      SplitJoinedCons(pad, words[0], rest, words[1..]);
      assert [words[0]] + words[1..] == words;
    }
  }

  lemma SplitJoinedUnpadded(words: seq<string>)
    requires forall k :: 0 <= k < |words| ==> IsWord(words[k])
    ensures NonEmptyStripped(SplitOn(Join(words, ", "), ",")) == words
  {
    var none: string := [];
    var joined := Join(words, ", ");
    assert none + joined == joined;
    assert AllSpace(none);
    SplitJoinedWords(none, words);
  }

  /** A ", "-joined list of words holds no '#' and is already trimmed. */
  lemma JoinedWordsShape(words: seq<string>)
    requires forall k :: 0 <= k < |words| ==> IsWord(words[k])
    ensures '#' !in Join(words, ", ")
    ensures Strip(Join(words, ", ")) == Join(words, ", ")
  {
    JoinAvoids(words, ", ", '#');
    JoinTrimmed(words, ", ");
    StripTrimmed(Join(words, ", "));
  }

  lemma VocabWordsOfOne(line: string)
    ensures VocabWords([line]) == LineWords(line)
  {
    FlatMapOne(LineWords, line);
  }

  /** A comment-free, trimmed line is split on ',' as it stands. */
  lemma LineWordsOfClean(line: string)
    requires '#' !in line && Trimmed(line)
    ensures LineWords(line) == if line == [] then [] else NonEmptyStripped(SplitOn(line, ","))
  {
    SplitWithoutSeparator(line, '#');
    StripTrimmed(line);
  }

  /** Reading the produced prompt back as a one-line vocabulary file yields
      exactly the words it was made from. */
  lemma PromptRoundTrip(words: seq<string>)
    requires forall k :: 0 <= k < |words| ==> IsWord(words[k])
    ensures VocabWords([Join(words, ", ")]) == words
  {
    var j := Join(words, ", ");
    VocabWordsOfOne(j);
    JoinedWordsShape(words);
    JoinTrimmed(words, ", ");
    LineWordsOfClean(j);
    if words != [] {
      SplitJoinedUnpadded(words);
    }
  }

  /** Loading a file and then loading its prompt as a file gives the same words. */
  lemma ReloadIsStable(lines: seq<string>)
    ensures VocabWords([Join(VocabWords(lines), ", ")]) == VocabWords(lines)
  {
    VocabWordsAreWords(lines);
    PromptRoundTrip(VocabWords(lines));
  }
}
