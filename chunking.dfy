/** The sentence chunker (ingestion/chunking.py): a section's text is cut at
    every '.', and the stripped non-blank sentences are grouped greedily. A
    chunk of several sentences is at most `max_chars + 1` characters long with
    its closing '.', and a sentence longer than `max_chars` forms a chunk of
    its own. */
module Chunking {
  import opened PyText

  /** ingestion/parsers.py `Section`. */
  datatype Section = Section(docId: string, sectionId: string, title: Option<string>, text: string, page: Option<int>)

  /** The chunk's `{page, section_id}` metadata dictionary. */
  datatype ChunkMetadata = ChunkMetadata(page: Option<int>, sectionId: string)

  datatype Chunk = Chunk(docId: string, chunkId: string, text: string, metadata: ChunkMetadata)

  // ---------------------------------------------------------------------------
  // Sentences
  // ---------------------------------------------------------------------------

  /** A sentence as the chunker produces it: non-empty, stripped, and free of
      '.' and of newlines. */
  predicate IsSentence(s: string)
  {
    s != "" && !IsSpace(s[0]) && !IsSpace(s[|s| - 1]) && '.' !in s && '\n' !in s
  }

  lemma {:induction false} StripKeepsAbsent(s: string, c: char)
    requires c !in s
    ensures c !in Strip(s, Whitespace)
  {
    var r := Strip(s, Whitespace);
    var i := StripStart(s, Whitespace);
    forall k | 0 <= k < |r| ensures r[k] != c {
      assert r[k] == s[i + k];
    }
  }

  lemma {:induction false} StrippedIsSentence(p: string)
    requires '.' !in p && '\n' !in p && Strip(p, Whitespace) != ""
    ensures IsSentence(Strip(p, Whitespace))
  {
    StripKeepsAbsent(p, '.');
    StripKeepsAbsent(p, '\n');
  }

  /** `[s.strip() for s in pieces if s.strip()]`. */
  function NonBlank(pieces: seq<string>): seq<string>
  {
    if pieces == [] then []
    else
      var s := Strip(pieces[0], Whitespace);
      if s == "" then NonBlank(pieces[1..]) else [s] + NonBlank(pieces[1..])
  }

  /** The non-blank stripped pieces are sentences, when no piece holds a '.'
      or a newline. */
  lemma {:induction false} NonBlankSentences(pieces: seq<string>)
    requires forall k :: 0 <= k < |pieces| ==> '.' !in pieces[k] && '\n' !in pieces[k]
    ensures forall k :: 0 <= k < |NonBlank(pieces)| ==> IsSentence(NonBlank(pieces)[k])
  {
    if pieces != [] {
      var rest := pieces[1..];
      assert forall k :: 0 <= k < |rest| ==> rest[k] == pieces[k + 1];
      NonBlankSentences(rest);
      var s, tail := Strip(pieces[0], Whitespace), NonBlank(rest);
      if s != "" {
        StrippedIsSentence(pieces[0]);
        var nb := NonBlank(pieces);
        assert nb == [s] + tail;
        forall k | 0 <= k < |nb| ensures IsSentence(nb[k]) {
          if k > 0 {
            assert nb[k] == tail[k - 1];
          }
        }
      }
    }
  }

  /** The sentence list of a section text: newlines become spaces, the text
      is split at '.', and the pieces are stripped, blank ones dropped. */
  function Sentences(text: string): seq<string>
  {
    NonBlank(Split(ReplaceChar(text, '\n', ' '), '.'))
  }

  /** Every entry of the sentence list is a sentence. */
  lemma {:induction false} SentencesAreSentences(text: string)
    ensures forall k :: 0 <= k < |Sentences(text)| ==> IsSentence(Sentences(text)[k])
  {
    var t := ReplaceChar(text, '\n', ' ');
    SplitKeepsAbsent(t, '.', '\n');
    NonBlankSentences(Split(t, '.'));
  }

  lemma {:induction false} SplitKeepsAbsent(s: string, sep: char, c: char)
    requires c !in s
    ensures forall k :: 0 <= k < |Split(s, sep)| ==> c !in Split(s, sep)[k]
  {
    if s != [] {
      SplitKeepsAbsent(s[1..], sep, c);
    }
  }

  // ---------------------------------------------------------------------------
  // The greedy grouping
  // ---------------------------------------------------------------------------

  /** The buffers, one after the other. */
  function Flatten(bufs: seq<seq<string>>): seq<string>
  {
    if bufs == [] then [] else Flatten(bufs[..|bufs| - 1]) + bufs[|bufs| - 1]
  }

  /** Length of a chunk's text without its closing '.'. */
  function JoinedLength(buf: seq<string>): nat
  {
    |Join(". ", buf)|
  }

  /** `bufs` groups the sentences `ss` the way the chunker does: in order,
      nothing dropped or repeated; no buffer empty; a buffer of two or more
      sentences fits in `maxChars` once joined with ". "; and a buffer is
      closed only when the next sentence would not have fitted. */
  predicate GreedyGrouping(bufs: seq<seq<string>>, ss: seq<string>, maxChars: int)
  {
    && Flatten(bufs) == ss
    && (forall k :: 0 <= k < |bufs| ==> bufs[k] != [])
    && (forall k :: 0 <= k < |bufs| && |bufs[k]| >= 2 ==> JoinedLength(bufs[k]) <= maxChars)
    && (forall k :: 0 <= k < |bufs| - 1 ==> JoinedLength(bufs[k]) + 2 + |bufs[k + 1][0]| > maxChars)
  }

  /** The id of the k-th chunk of a section, counting from 1. */
  function ChunkId(sectionId: string, k: nat): string
  {
    sectionId + "_c" + NatToDecimal(k)
  }

  /** The chunk built from the k-th buffer (counting from 1). */
  function MakeChunk(section: Section, k: nat, buf: seq<string>): Chunk
  {
    Chunk(section.docId, ChunkId(section.sectionId, k), Join(". ", buf) + ".",
          ChunkMetadata(section.page, section.sectionId))
  }

  lemma {:induction false} JoinedLengthAppend(buf: seq<string>, s: string)
    ensures JoinedLength(buf + [s]) == if buf == [] then |s| else JoinedLength(buf) + 2 + |s|
  {
    if buf == [] {
      assert buf + [s] == [s];
    } else {
      JoinAppend(". ", buf, s);
    }
  }

  lemma {:induction false} FlattenSnoc(bufs: seq<seq<string>>, b: seq<string>)
    ensures Flatten(bufs + [b]) == Flatten(bufs) + b
  {
    assert (bufs + [b])[..|bufs|] == bufs;
  }

  /** What the loop knows about the buffers flushed so far and the open one. */
  predicate Progress(bufs: seq<seq<string>>, buf: seq<string>, maxChars: int)
  {
    && (forall k :: 0 <= k < |bufs| ==> bufs[k] != [])
    && (forall k :: 0 <= k < |bufs| && |bufs[k]| >= 2 ==> JoinedLength(bufs[k]) <= maxChars)
    && (forall k :: 0 <= k < |bufs| - 1 ==> JoinedLength(bufs[k]) + 2 + |bufs[k + 1][0]| > maxChars)
    && (bufs != [] ==> buf != [] && JoinedLength(bufs[|bufs| - 1]) + 2 + |buf[0]| > maxChars)
    && (|buf| >= 2 ==> JoinedLength(buf) <= maxChars)
  }

  /** Closing the open buffer because the next sentence does not fit. */
  lemma {:induction false} ProgressFlush(bufs: seq<seq<string>>, buf: seq<string>, s: string, maxChars: int)
    requires Progress(bufs, buf, maxChars) && buf != []
    requires JoinedLength(buf) + 2 + |s| > maxChars
    ensures Progress(bufs + [buf], [s], maxChars)
  {
    var b := bufs + [buf];
    assert forall k :: 0 <= k < |bufs| ==> b[k] == bufs[k];
  }

  /** Adding the next sentence to the open buffer because it fits. */
  lemma {:induction false} ProgressExtend(bufs: seq<seq<string>>, buf: seq<string>, s: string, maxChars: int)
    requires Progress(bufs, buf, maxChars)
    requires buf == [] ==> bufs == []
    requires buf != [] ==> JoinedLength(buf) + 2 + |s| <= maxChars
    ensures Progress(bufs, buf + [s], maxChars)
  {
    JoinedLengthAppend(buf, s);
    if buf != [] {
      assert (buf + [s])[0] == buf[0];
    }
  }

  /** The last, open buffer flushed: a greedy grouping of everything seen. */
  lemma {:induction false} ProgressFinish(bufs: seq<seq<string>>, buf: seq<string>, ss: seq<string>, maxChars: int)
    requires Progress(bufs, buf, maxChars) && Flatten(bufs) + buf == ss
    requires buf == [] ==> bufs == []
    ensures buf != [] ==> GreedyGrouping(bufs + [buf], ss, maxChars)
    ensures buf == [] ==> GreedyGrouping(bufs, ss, maxChars)
  {
    if buf != [] {
      FlattenSnoc(bufs, buf);
      var b := bufs + [buf];
      assert forall k :: 0 <= k < |bufs| ==> b[k] == bufs[k];
      assert b[|bufs|] == buf;
      assert forall k :: 0 <= k < |b| ==> b[k] != [];
      assert forall k :: 0 <= k < |b| && |b[k]| >= 2 ==> JoinedLength(b[k]) <= maxChars;
      forall k | 0 <= k < |b| - 1
        ensures JoinedLength(b[k]) + 2 + |b[k + 1][0]| > maxChars
      {
        if k + 1 < |bufs| {
          assert b[k + 1] == bufs[k + 1];
        }
      }
    } else {
      assert Flatten(bufs) == [] + buf;
    }
  }

  /** The chunks are built from the buffers, the k-th chunk from the k-th buffer. */
  predicate BuiltFrom(section: Section, chunks: seq<Chunk>, bufs: seq<seq<string>>)
  {
    |chunks| == |bufs| && forall k :: 0 <= k < |chunks| ==> chunks[k] == MakeChunk(section, k + 1, bufs[k])
  }

  lemma {:induction false} BuiltFromSnoc(section: Section, chunks: seq<Chunk>, bufs: seq<seq<string>>, buf: seq<string>)
    requires BuiltFrom(section, chunks, bufs)
    ensures BuiltFrom(section, chunks + [MakeChunk(section, |chunks| + 1, buf)], bufs + [buf])
  {
  }

  /** The buffers the chunker flushes, as a function: `ss` are the sentences
      still to read and `buf` the open buffer. A sentence that would take the
      open, non-empty buffer past `maxChars` closes it; otherwise it joins
      it. The last open buffer, if any, is flushed at the end. */
  function GreedyBuffers(ss: seq<string>, buf: seq<string>, maxChars: int): seq<seq<string>>
    decreases |ss|
  {
    if ss == [] then (if buf == [] then [] else [buf])
    else if buf != [] && JoinedLength(buf) + 2 + |ss[0]| > maxChars then [buf] + GreedyBuffers(ss[1..], [ss[0]], maxChars)
    else GreedyBuffers(ss[1..], buf + [ss[0]], maxChars)
  }

  /** The buffers of a whole sentence list. */
  function Grouping(ss: seq<string>, maxChars: int): seq<seq<string>>
  {
    GreedyBuffers(ss, [], maxChars)
  }

  /** Reading sentence i unfolds the grouping by one step. */
  lemma {:induction false} GreedyBuffersStep(ss: seq<string>, i: nat, buf: seq<string>, maxChars: int)
    requires i < |ss|
    ensures GreedyBuffers(ss[i..], buf, maxChars) ==
      if buf != [] && JoinedLength(buf) + 2 + |ss[i]| > maxChars then [buf] + GreedyBuffers(ss[i + 1..], [ss[i]], maxChars)
      else GreedyBuffers(ss[i + 1..], buf + [ss[i]], maxChars)
  {
    assert ss[i..][0] == ss[i] && ss[i..][1..] == ss[i + 1..];
  }

  /** The loop's flush: the open buffer is closed. */
  lemma {:induction false} FlushStep(sentences: seq<string>, i: nat, bufs: seq<seq<string>>, buf: seq<string>, maxChars: int)
    requires i < |sentences| && buf != [] && JoinedLength(buf) + 2 + |sentences[i]| > maxChars
    requires bufs + GreedyBuffers(sentences[i..], buf, maxChars) == Grouping(sentences, maxChars)
    ensures (bufs + [buf]) + GreedyBuffers(sentences[i + 1..], [] + [sentences[i]], maxChars) == Grouping(sentences, maxChars)
  {
    var rest := GreedyBuffers(sentences[i + 1..], [sentences[i]], maxChars);
    GreedyBuffersStep(sentences, i, buf, maxChars);
    assert [] + [sentences[i]] == [sentences[i]];
    assert (bufs + [buf]) + rest == bufs + ([buf] + rest);
  }

  /** The loop's extension: the sentence joins the open buffer. */
  lemma {:induction false} ExtendStep(sentences: seq<string>, i: nat, bufs: seq<seq<string>>, buf: seq<string>, maxChars: int)
    requires i < |sentences| && !(buf != [] && JoinedLength(buf) + 2 + |sentences[i]| > maxChars)
    requires bufs + GreedyBuffers(sentences[i..], buf, maxChars) == Grouping(sentences, maxChars)
    ensures bufs + GreedyBuffers(sentences[i + 1..], buf + [sentences[i]], maxChars) == Grouping(sentences, maxChars)
  {
    GreedyBuffersStep(sentences, i, buf, maxChars);
  }

  /** The final flush after the last sentence. */
  lemma {:induction false} FinishStep(sentences: seq<string>, bufs: seq<seq<string>>, buf: seq<string>, maxChars: int)
    requires bufs + GreedyBuffers(sentences[|sentences|..], buf, maxChars) == Grouping(sentences, maxChars)
    ensures (if buf == [] then bufs else bufs + [buf]) == Grouping(sentences, maxChars)
  {
    assert sentences[|sentences|..] == [];
    if buf == [] {
      assert bufs + [] == bufs;
    }
  }

  /** The running length `current_len`, kept as the open buffer's joined
      length plus 2, or 0 for an empty buffer. */
  function RunningLength(buf: seq<string>): int
  {
    if buf == [] then 0 else JoinedLength(buf) + 2
  }

  lemma {:induction false} RunningLengthAppend(buf: seq<string>, s: string)
    ensures RunningLength(buf + [s]) == RunningLength(buf) + |s| + 2
  {
    JoinedLengthAppend(buf, s);
  }

  /** The grouping loop of `simple_sentence_chunk` over a section's sentence
      list, with its final flush. The chunks are built, one per buffer and
      numbered from 1, from exactly the buffers of `Grouping`. */
  method GroupSentences(section: Section, sentences: seq<string>, maxChars: int) returns (chunks: seq<Chunk>)
    ensures BuiltFrom(section, chunks, Grouping(sentences, maxChars))
  {
    chunks := [];
    ghost var bufs: seq<seq<string>> := [];
    var buf: seq<string> := [];
    var currentLen := 0;
    var counter := 0;
    for i := 0 to |sentences|
      invariant counter == |chunks|
      invariant currentLen == RunningLength(buf)
      invariant bufs + GreedyBuffers(sentences[i..], buf, maxChars) == Grouping(sentences, maxChars)
      invariant BuiltFrom(section, chunks, bufs)
    {
      var sent := sentences[i];
      if currentLen + |sent| > maxChars && buf != [] {
        FlushStep(sentences, i, bufs, buf, maxChars);
        BuiltFromSnoc(section, chunks, bufs, buf);
        counter := counter + 1;
        chunks := chunks + [MakeChunk(section, counter, buf)];
        bufs := bufs + [buf];
        buf := [];
        currentLen := 0;
      } else {
        ExtendStep(sentences, i, bufs, buf, maxChars);
      }
      RunningLengthAppend(buf, sent);
      buf := buf + [sent];
      currentLen := currentLen + |sent| + 2;
    }
    FinishStep(sentences, bufs, buf, maxChars);
    if buf != [] {
      BuiltFromSnoc(section, chunks, bufs, buf);
      counter := counter + 1;
      chunks := chunks + [MakeChunk(section, counter, buf)];
    }
  }

  /** `simple_sentence_chunk`: the section's sentences, grouped greedily into
      chunks. */
  method SimpleSentenceChunk(section: Section, maxChars: int) returns (chunks: seq<Chunk>)
    ensures BuiltFrom(section, chunks, Grouping(Sentences(section.text), maxChars))
  {
    var sentences := Sentences(section.text);
    chunks := GroupSentences(section, sentences, maxChars);
  }

  // ---------------------------------------------------------------------------
  // The grouping is the greedy one
  // ---------------------------------------------------------------------------

  /** Reading the rest of the sentences from a state the loop can reach
      completes a greedy grouping of everything read. */
  lemma {:induction false} GreedyBuffersProgress(ss: seq<string>, bufs: seq<seq<string>>, buf: seq<string>, maxChars: int)
    requires Progress(bufs, buf, maxChars) && (buf == [] ==> bufs == [])
    ensures GreedyGrouping(bufs + GreedyBuffers(ss, buf, maxChars), Flatten(bufs) + buf + ss, maxChars)
    decreases |ss|
  {
    if ss == [] {
      ProgressEnd(ss, bufs, buf, maxChars);
    } else if buf != [] && JoinedLength(buf) + 2 + |ss[0]| > maxChars {
      ProgressFlush(bufs, buf, ss[0], maxChars);
      GreedyBuffersProgress(ss[1..], bufs + [buf], [ss[0]], maxChars);
      FlushCase(ss, bufs, buf, maxChars);
    } else {
      ProgressExtend(bufs, buf, ss[0], maxChars);
      GreedyBuffersProgress(ss[1..], bufs, buf + [ss[0]], maxChars);
      ExtendCase(ss, bufs, buf, maxChars);
    }
  }

  lemma {:induction false} ProgressEnd(ss: seq<string>, bufs: seq<seq<string>>, buf: seq<string>, maxChars: int)
    requires ss == [] && Progress(bufs, buf, maxChars) && (buf == [] ==> bufs == [])
    ensures GreedyGrouping(bufs + GreedyBuffers(ss, buf, maxChars), Flatten(bufs) + buf + ss, maxChars)
  {
    ProgressFinish(bufs, buf, Flatten(bufs) + buf, maxChars);
    assert Flatten(bufs) + buf + ss == Flatten(bufs) + buf;
    if buf == [] {
      assert bufs + GreedyBuffers(ss, buf, maxChars) == bufs;
    }
  }

  lemma {:induction false} FlushCase(ss: seq<string>, bufs: seq<seq<string>>, buf: seq<string>, maxChars: int)
    requires ss != [] && buf != [] && JoinedLength(buf) + 2 + |ss[0]| > maxChars
    ensures (bufs + [buf]) + GreedyBuffers(ss[1..], [ss[0]], maxChars) == bufs + GreedyBuffers(ss, buf, maxChars)
    ensures Flatten(bufs + [buf]) + [ss[0]] + ss[1..] == Flatten(bufs) + buf + ss
  {
    FlattenSnoc(bufs, buf);
    var rest := GreedyBuffers(ss[1..], [ss[0]], maxChars);
    assert (bufs + [buf]) + rest == bufs + ([buf] + rest);
    assert [ss[0]] + ss[1..] == ss;
  }

  lemma {:induction false} ExtendCase(ss: seq<string>, bufs: seq<seq<string>>, buf: seq<string>, maxChars: int)
    requires ss != [] && !(buf != [] && JoinedLength(buf) + 2 + |ss[0]| > maxChars)
    ensures bufs + GreedyBuffers(ss[1..], buf + [ss[0]], maxChars) == bufs + GreedyBuffers(ss, buf, maxChars)
    ensures Flatten(bufs) + (buf + [ss[0]]) + ss[1..] == Flatten(bufs) + buf + ss
  {
    assert [ss[0]] + ss[1..] == ss;
  }

  /** The chunker's grouping is greedy: in order, nothing dropped or
      repeated, no empty buffer, every multi-sentence buffer within
      `maxChars`, and each buffer closed only when the next sentence would
      not fit. */
  lemma {:induction false} GroupingIsGreedy(ss: seq<string>, maxChars: int)
    ensures GreedyGrouping(Grouping(ss, maxChars), ss, maxChars)
  {
    GreedyBuffersProgress(ss, [], [], maxChars);
    assert Flatten([]) + [] + ss == ss;
    assert [] + Grouping(ss, maxChars) == Grouping(ss, maxChars);
  }

  // ---------------------------------------------------------------------------
  // Properties of the chunks
  // ---------------------------------------------------------------------------

  /** A separator followed by more text: the first piece is what comes before it. */
  lemma {:induction false} SplitAtSeparator(a: string, sep: char, t: string)
    requires sep !in a
    ensures Split(a + [sep] + t, sep) == [a] + Split(t, sep)
  {
    if a == [] {
      assert a + [sep] + t == [sep] + t;
      assert ([sep] + t)[1..] == t;
    } else {
      assert (a + [sep] + t)[1..] == a[1..] + [sep] + t;
      SplitAtSeparator(a[1..], sep, t);
      assert [a[0]] + a[1..] == a;
    }
  }

  /** Leading spaces before a sentence are stripped away, and nothing else. */
  lemma {:induction false} StripLeadingSpaces(lead: string, b: string)
    requires forall k :: 0 <= k < |lead| ==> IsSpace(lead[k])
    requires IsSentence(b)
    ensures TrimStart(lead + b, Whitespace) == b
  {
    var x := lead + b;
    assert forall k :: 0 <= k < |lead| ==> x[k] == lead[k];
    assert x[|lead|] == b[0];
    TrimStartAt(x, Whitespace, |lead|);
    assert x[|lead|..] == b;
  }

  lemma {:induction false} StripSentence(lead: string, b: string)
    requires forall k :: 0 <= k < |lead| ==> IsSpace(lead[k])
    requires IsSentence(b)
    ensures Strip(lead + b, Whitespace) == b
  {
    StripLeadingSpaces(lead, b);
  }

  lemma {:induction false} NonBlankCons(x: string, rest: seq<string>)
    ensures NonBlank([x] + rest) ==
      if Strip(x, Whitespace) == "" then NonBlank(rest) else [Strip(x, Whitespace)] + NonBlank(rest)
  {
    assert ([x] + rest)[1..] == rest;
  }

  /** The tail of a buffer's text after its first sentence and '.'. */
  function TailText(buf: seq<string>): string
    requires buf != []
  {
    if |buf| == 1 then "" else " " + Join(". ", buf[1..]) + "."
  }

  lemma {:induction false} TextShape(lead: string, buf: seq<string>)
    requires buf != []
    ensures lead + Join(". ", buf) + "." == (lead + buf[0]) + ['.'] + TailText(buf)
  {
  }

  /** The text of a buffer, after a run of spaces, splits back into the buffer. */
  lemma {:induction false} ResplitBuffer(lead: string, buf: seq<string>)
    requires lead == "" || lead == " "
    requires forall k :: 0 <= k < |buf| ==> IsSentence(buf[k])
    ensures NonBlank(Split(lead + Join(". ", buf) + ".", '.')) == buf
    decreases |buf|, 1
  {
    if buf == [] {
      ResplitEmpty(lead);
    } else {
      var b := buf[0];
      assert [b] + buf[1..] == buf;
      TextShape(lead, buf);
      SplitAtSeparator(lead + b, '.', TailText(buf));
      assert forall k :: 0 <= k < |lead| ==> lead[k] == ' ';
      StripSentence(lead, b);
      NonBlankCons(lead + b, Split(TailText(buf), '.'));
      ResplitTail(buf);
    }
  }

  lemma {:induction false} ResplitEmpty(lead: string)
    requires lead == "" || lead == " "
    ensures NonBlank(Split(lead + Join(". ", []) + ".", '.')) == []
  {
    var text := lead + Join(". ", []) + ".";
    assert text == lead + ['.'] + "";
    SplitAtSeparator(lead, '.', "");
    assert Split("", '.') == [""] + [];
    assert Split(text, '.') == [lead] + ([""] + []);
    assert Strip(lead, Whitespace) == "" by {
      assert forall k :: 0 <= k < |lead| ==> lead[k] == ' ';
    }
    NonBlankCons(lead, [""] + []);
    NonBlankCons("", []);
  }

  /** What follows the first sentence of a buffer splits back into the rest. */
  lemma {:induction false} ResplitTail(buf: seq<string>)
    requires buf != []
    requires forall k :: 0 <= k < |buf| ==> IsSentence(buf[k])
    ensures NonBlank(Split(TailText(buf), '.')) == buf[1..]
    decreases |buf|, 0
  {
    if |buf| == 1 {
      assert Split("", '.') == [""];
      NonBlankCons("", []);
    } else {
      var rest := buf[1..];
      assert forall k :: 0 <= k < |rest| ==> rest[k] == buf[k + 1];
      ResplitBuffer(" ", rest);
    }
  }

  /** A chunk's text holds no newline. */
  lemma {:induction false} ChunkTextHasNoNewline(buf: seq<string>)
    requires forall k :: 0 <= k < |buf| ==> IsSentence(buf[k])
    ensures '\n' !in Join(". ", buf) + "."
  {
    JoinAvoids(". ", buf, '\n');
  }

  /** Re-splitting a chunk's text gives back exactly the sentences it was
      built from. */
  lemma {:induction false} ChunkTextRoundTrip(buf: seq<string>)
    requires forall k :: 0 <= k < |buf| ==> IsSentence(buf[k])
    ensures Sentences(Join(". ", buf) + ".") == buf
  {
    var t := Join(". ", buf) + ".";
    ChunkTextHasNoNewline(buf);
    ReplaceAbsent(t, '\n', ' ');
    ResplitBuffer("", buf);
    assert "" + Join(". ", buf) == Join(". ", buf);
  }

  /** Every sentence of every buffer is one of the flattened sentences. */
  lemma {:induction false} FlattenContains(bufs: seq<seq<string>>, k: nat, j: nat)
    requires k < |bufs| && j < |bufs[k]|
    ensures bufs[k][j] in Flatten(bufs)
  {
    var last := |bufs| - 1;
    if k < last {
      FlattenContains(bufs[..last], k, j);
    }
    assert Flatten(bufs) == Flatten(bufs[..last]) + bufs[last];
  }

  /** No sentence is lost, changed or moved: each chunk's text splits back
      into its own buffer, and the buffers in order are the section's
      sentences. */
  lemma {:induction false} ChunksResplit(section: Section, chunks: seq<Chunk>, bufs: seq<seq<string>>, maxChars: int)
    requires GreedyGrouping(bufs, Sentences(section.text), maxChars) && BuiltFrom(section, chunks, bufs)
    ensures forall k :: 0 <= k < |chunks| ==> Sentences(chunks[k].text) == bufs[k]
    ensures Flatten(bufs) == Sentences(section.text)
  {
    SentencesAreSentences(section.text);
    forall k | 0 <= k < |chunks| ensures Sentences(chunks[k].text) == bufs[k] {
      forall j | 0 <= j < |bufs[k]| ensures IsSentence(bufs[k][j]) {
        FlattenContains(bufs, k, j);
      }
      ChunkTextRoundTrip(bufs[k]);
    }
  }

  /** A chunk holding two or more sentences fits in `maxChars`, its closing
      '.' aside. */
  lemma {:induction false} ChunkFits(section: Section, chunks: seq<Chunk>, bufs: seq<seq<string>>, maxChars: int, k: nat)
    requires GreedyGrouping(bufs, Sentences(section.text), maxChars) && BuiltFrom(section, chunks, bufs)
    requires k < |chunks| && |bufs[k]| >= 2
    ensures |chunks[k].text| <= maxChars + 1
  {
  }

  /** Each chunk carries the section's document id, the id
      `{section_id}_c{k}` for k = 1, 2, ... in order, its buffer's sentences
      joined by ". " with a closing '.', and the section's page and id as
      metadata; no buffer is empty. */
  lemma {:induction false} ChunkFields(section: Section, chunks: seq<Chunk>, bufs: seq<seq<string>>, maxChars: int, k: nat)
    requires GreedyGrouping(bufs, Sentences(section.text), maxChars) && BuiltFrom(section, chunks, bufs)
    requires k < |chunks|
    ensures chunks[k].docId == section.docId
    ensures chunks[k].chunkId == section.sectionId + "_c" + NatToDecimal(k + 1)
    ensures chunks[k].text == Join(". ", bufs[k]) + "." && bufs[k] != []
    ensures chunks[k].metadata == ChunkMetadata(section.page, section.sectionId)
  {
  }

  /** A sentence longer than `maxChars` is not dropped: it forms a chunk of
      its own. */
  lemma {:induction false} LongSentenceAlone(bufs: seq<seq<string>>, ss: seq<string>, maxChars: int, k: nat, j: nat)
    requires GreedyGrouping(bufs, ss, maxChars)
    requires k < |bufs| && j < |bufs[k]| && |bufs[k][j]| > maxChars
    ensures bufs[k] == [bufs[k][j]]
  {
    var b := bufs[k];
    JoinPieceAt(". ", b, j);
    assert |b| < 2;
  }

  /** Chunk ids within a section are distinct. */
  lemma {:induction false} ChunkIdsDistinct(section: Section, chunks: seq<Chunk>, bufs: seq<seq<string>>, i: nat, j: nat)
    requires BuiltFrom(section, chunks, bufs)
    requires i < |chunks| && j < |chunks| && i != j
    ensures chunks[i].chunkId != chunks[j].chunkId
  {
    var p := section.sectionId + "_c";
    if chunks[i].chunkId == chunks[j].chunkId {
      assert p + NatToDecimal(i + 1) == p + NatToDecimal(j + 1);
      assert NatToDecimal(i + 1) == (p + NatToDecimal(i + 1))[|p|..];
      assert NatToDecimal(j + 1) == (p + NatToDecimal(j + 1))[|p|..];
      DecimalInjective(i + 1, j + 1);
    }
  }

  lemma {:induction false} FlattenEmptyIff(bufs: seq<seq<string>>)
    requires forall k :: 0 <= k < |bufs| ==> bufs[k] != []
    ensures Flatten(bufs) == [] <==> bufs == []
  {
    if bufs != [] {
      assert |Flatten(bufs)| >= |bufs[|bufs| - 1]|;
    }
  }

  /** A section yields no chunk exactly when its text holds no sentence. */
  lemma {:induction false} NoChunksIffNoSentences(section: Section, chunks: seq<Chunk>, bufs: seq<seq<string>>, maxChars: int)
    requires GreedyGrouping(bufs, Sentences(section.text), maxChars) && BuiltFrom(section, chunks, bufs)
    ensures chunks == [] <==> Sentences(section.text) == []
  {
    FlattenEmptyIff(bufs);
  }

  // ---------------------------------------------------------------------------
  // The greedy grouping is unique
  // ---------------------------------------------------------------------------

  lemma {:induction false} FlattenCons(b: seq<string>, rest: seq<seq<string>>)
    ensures Flatten([b] + rest) == b + Flatten(rest)
  {
    if rest != [] {
      var last := |rest| - 1;
      assert ([b] + rest)[..|rest|] == [b] + rest[..last];
      FlattenCons(b, rest[..last]);
    }
  }

  /** Dropping sentences from the end of a buffer never makes it longer. */
  lemma {:induction false} JoinedLengthPrefix(xs: seq<string>, j: nat)
    requires 1 <= j <= |xs|
    ensures JoinedLength(xs[..j]) <= JoinedLength(xs)
    decreases |xs|
  {
    if j < |xs| {
      var init := xs[..|xs| - 1];
      JoinedLengthAppend(init, xs[|xs| - 1]);
      assert init + [xs[|xs| - 1]] == xs;
      assert init[..j] == xs[..j];
      JoinedLengthPrefix(init, j);
    } else {
      assert xs[..j] == xs;
    }
  }

  /** After the first buffer, the rest is a greedy grouping of the rest. */
  lemma {:induction false} GreedyGroupingTail(bufs: seq<seq<string>>, ss: seq<string>, maxChars: int)
    requires GreedyGrouping(bufs, ss, maxChars) && bufs != []
    ensures |bufs[0]| <= |ss| && ss[..|bufs[0]|] == bufs[0]
    ensures GreedyGrouping(bufs[1..], ss[|bufs[0]|..], maxChars)
  {
    FlattenCons(bufs[0], bufs[1..]);
    assert [bufs[0]] + bufs[1..] == bufs;
  }

  /** When sentences remain after the first buffer, the second buffer starts
      with the first of them. */
  lemma {:induction false} SecondBufferStart(a: seq<seq<string>>, ss: seq<string>, maxChars: int)
    requires GreedyGrouping(a, ss, maxChars) && a != []
    requires |a[0]| < |ss|
    ensures |a| >= 2 && a[1][0] == ss[|a[0]|]
  {
    GreedyGroupingTail(a, ss, maxChars);
    var rest := ss[|a[0]|..];
    FlattenEmptyIff(a[1..]);
    GreedyGroupingTail(a[1..], rest, maxChars);
    assert a[1..][0] == a[1];
  }

  /** A greedy grouping's first buffer is as long as it can be: no other
      greedy grouping of the same sentences has a longer first buffer. */
  lemma {:induction false} FirstBufferMaximal(a: seq<seq<string>>, b: seq<seq<string>>, ss: seq<string>, maxChars: int)
    requires GreedyGrouping(a, ss, maxChars) && GreedyGrouping(b, ss, maxChars)
    requires a != [] && b != []
    ensures |b[0]| <= |a[0]|
  {
    GreedyGroupingTail(a, ss, maxChars);
    GreedyGroupingTail(b, ss, maxChars);
    var a0, b0 := a[0], b[0];
    var n := |a0|;
    if n < |b0| {
      var x := b0[n];
      assert x == ss[n];
      SecondBufferStart(a, ss, maxChars);
      assert JoinedLength(a0) + 2 + |x| > maxChars;
      assert b0[..n + 1] == a0 + [x];
      JoinedLengthAppend(a0, x);
      JoinedLengthPrefix(b0, n + 1);
      assert false;
    }
  }

  /** The greedy grouping of a sentence list is unique: whatever satisfies
      `GreedyGrouping` is exactly what the chunker computes. */
  lemma {:induction false} GreedyGroupingUnique(a: seq<seq<string>>, b: seq<seq<string>>, ss: seq<string>, maxChars: int)
    requires GreedyGrouping(a, ss, maxChars) && GreedyGrouping(b, ss, maxChars)
    ensures a == b
    decreases |a|
  {
    FlattenEmptyIff(a);
    FlattenEmptyIff(b);
    if a != [] && b != [] {
      assert [a[0]] + a[1..] == a;
      assert [b[0]] + b[1..] == b;
      FirstBufferMaximal(a, b, ss, maxChars);
      FirstBufferMaximal(b, a, ss, maxChars);
      GreedyGroupingTail(a, ss, maxChars);
      GreedyGroupingTail(b, ss, maxChars);
      GreedyGroupingUnique(a[1..], b[1..], ss[|a[0]|..], maxChars);
    }
  }

  /** A grouping is greedy exactly when it is the chunker's. */
  lemma {:induction false} GreedyIffGrouping(bufs: seq<seq<string>>, ss: seq<string>, maxChars: int)
    ensures GreedyGrouping(bufs, ss, maxChars) <==> bufs == Grouping(ss, maxChars)
  {
    GroupingIsGreedy(ss, maxChars);
    if GreedyGrouping(bufs, ss, maxChars) {
      GreedyGroupingUnique(bufs, Grouping(ss, maxChars), ss, maxChars);
    }
  }

  /** The chunker is deterministic in its specification: two chunk lists of
      the same section, both built from greedy groupings, are equal. */
  lemma {:induction false} ChunksDetermined(section: Section, maxChars: int,
                         c1: seq<Chunk>, b1: seq<seq<string>>, c2: seq<Chunk>, b2: seq<seq<string>>)
    requires GreedyGrouping(b1, Sentences(section.text), maxChars) && BuiltFrom(section, c1, b1)
    requires GreedyGrouping(b2, Sentences(section.text), maxChars) && BuiltFrom(section, c2, b2)
    ensures c1 == c2
  {
    GreedyGroupingUnique(b1, b2, Sentences(section.text), maxChars);
  }
}
