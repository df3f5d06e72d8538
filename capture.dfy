/** The audio side of one recording in whisper_daemon.py (`_record_audio`):
    the blocks the input stream delivers are collected in arrival order, and
    once recording ends they are joined into one buffer, or transcription is
    skipped when none arrived. */
module Capture {
  import opened Wrappers

  /** One 16-bit PCM sample: the stream records mono "int16" audio. */
  type Sample = x: int | -0x8000 <= x < 0x8000

  /** The number of samples in a list of blocks. */
  function TotalLength(chunks: seq<seq<Sample>>): nat
    decreases |chunks|
  {
    if chunks == [] then 0
    else TotalLength(chunks[..|chunks| - 1]) + |chunks[|chunks| - 1]|
  }

  /** `np.concatenate(recorded_chunks, axis=0)` for one channel. */
  function Concat(chunks: seq<seq<Sample>>): (audio: seq<Sample>)
    ensures |audio| == TotalLength(chunks)
    decreases |chunks|
  {
    if chunks == [] then []
    else Concat(chunks[..|chunks| - 1]) + chunks[|chunks| - 1]
  }

  /** Concatenation respects the order of arrival: two runs of blocks give
      the audio of the first followed by that of the second. */
  lemma {:induction false} ConcatAppend(a: seq<seq<Sample>>, b: seq<seq<Sample>>)
    ensures Concat(a + b) == Concat(a) + Concat(b)
    ensures TotalLength(a + b) == TotalLength(a) + TotalLength(b)
    decreases |b|
  {
    if b == [] {
      assert a + b == a;
    } else {
      var ab := a + b;
      var b' := b[..|b| - 1];
      assert ab[..|ab| - 1] == a + b';
      assert ab[|ab| - 1] == b[|b| - 1];
      ConcatAppend(a, b');
      var last := b[|b| - 1];
      assert Concat(ab) == Concat(a + b') + last;
      assert Concat(b) == Concat(b') + last;
      assert Concat(a) + Concat(b') + last == Concat(a) + (Concat(b') + last);
    }
  }

  /** The k-th block occupies the samples from the length of the blocks
      before it up to that length plus its own. */
  lemma BlockInPlace(chunks: seq<seq<Sample>>, k: nat)
    requires k < |chunks|
    ensures TotalLength(chunks[..k]) + |chunks[k]| <= TotalLength(chunks)
    ensures Concat(chunks)[TotalLength(chunks[..k])..TotalLength(chunks[..k]) + |chunks[k]|] == chunks[k]
  {
    var front := chunks[..k] + [chunks[k]];
    assert chunks == front + chunks[k + 1..];
    ConcatAppend(front, chunks[k + 1..]);
    ConcatAppend(chunks[..k], [chunks[k]]);
    var single: seq<seq<Sample>> := [chunks[k]];
    assert Concat(single) == chunks[k] by {
      assert single[..0] == [];
    }
  }

  /** `recorded_chunks`: the blocks kept so far in one recording. */
  class ChunkBuffer {
    var chunks: seq<seq<Sample>>

    /** A recording starts with no blocks. */
    constructor()
      ensures chunks == []
    {
      chunks := [];
    }

    /** Keeps one more block after those already kept. */
    method Append(block: seq<Sample>)
      modifies this
      ensures chunks == old(chunks) + [block]
    {
      chunks := chunks + [block];
    }

    /** The end of `_record_audio`: the blocks joined in arrival order, or
        None ("No audio recorded") when no block was kept. */
    method Collect() returns (audio: Option<seq<Sample>>)
      ensures audio.None? <==> chunks == []
      ensures audio.Some? ==> audio.value == Concat(chunks)
      ensures audio.Some? ==> |audio.value| == TotalLength(chunks)
    {
      if chunks == [] {
        audio := None;
      } else {
        audio := Some(Concat(chunks));
      }
    }
  }
}
