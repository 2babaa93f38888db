/** The interactive command-line loop: one `Session` holds the conversation history;
    `Step` is one turn of the `while True` loop, `Run` the loop over a sequence of
    console inputs. The retriever's documents and the language model's raw answer
    for each turn are part of the input. */
module Cli {
  import opened Text
  import opened YesNo
  import opened Retrieval
  import opened History

  /** One line of the "Top sources used" listing. */
  datatype ShownSource = ShownSource(key: SourceKey, snippet: string)

  /** One line of at most 183 characters that ends in "...". */
  predicate IsSnippetLine(s: string) {
    3 <= |s| <= SnippetLength + 3 && '\n' !in s && s[|s| - 3..] == "..."
  }

  function Shown(d: Document): ShownSource {
    ShownSource(KeyOf(d), Snippet(d.pageContent))
  }

  function ShowAll(ds: seq<Document>): (r: seq<ShownSource>)
    ensures |r| == |ds|
    ensures forall i :: 0 <= i < |ds| ==> r[i] == Shown(ds[i])
  {
    seq(|ds|, i requires 0 <= i < |ds| => Shown(ds[i]))
  }

  /** Every listed line carries the document's key and a one-line snippet. */
  lemma ShownLine(d: Document)
    ensures Shown(d).key == KeyOf(d)
    ensures IsSnippetLine(Shown(d).snippet)
  {
  }

  /** The listing a turn prints: it names the same keys, in the same order, as the
      HTTP handler's `sources`, and every snippet is a single line. */
  function Listing(docs: seq<Document>): (r: seq<ShownSource>)
    ensures |r| == |Citations(docs)|
    ensures forall i :: 0 <= i < |r| ==> r[i].key == Citations(docs)[i]
    ensures forall i :: 0 <= i < |r| ==> IsSnippetLine(r[i].snippet)
  {
    ShowAll(Cited(docs))
  }

  /** The source loop of a turn: skip a key already seen, show the document, stop
      after three. */
  method ShowSources(docs: seq<Document>) returns (listing: seq<ShownSource>)
    ensures listing == Listing(docs)
  {
    listing := [];
    var seen: set<SourceKey> := {};
    var shown := 0;
    ghost var kept: seq<Document> := [];
    for i := 0 to |docs|
      invariant kept == Firsts(docs[..i])
      invariant listing == ShowAll(kept)
      invariant forall k :: k in seen <==> k in Keys(kept)
      invariant shown == |listing| < MaxCitations
    {
      var d := docs[i];
      var key := KeyOf(d);
      if key in seen {
        assert kept == Firsts(docs[..i + 1]) by { FirstsStep(docs, i); }
        continue;
      }
      seen := seen + {key};
      assert ShowAll(kept + [d]) == ShowAll(kept) + [Shown(d)];
      listing := listing + [Shown(d)];
      ghost var before := kept;
      kept := kept + [d];
      assert kept == Firsts(docs[..i + 1]) && Keys(kept) == Keys(before) + [key] by {
        FirstsStep(docs, i);
      }
      shown := shown + 1;
      if shown == MaxCitations {
        CitedStopsAt(docs, i + 1);
        break;
      }
    }
    if shown < MaxCitations {
      assert docs[..|docs|] == docs;
    }
  }

  /** The loop ends on "exit", in any case, once the line is stripped. */
  predicate IsExit(line: string) {
    Lower(Strip(line)) == "exit"
  }

  /** `line` is "exit", in any case, at `line[a..b]`, with only whitespace around it. */
  ghost predicate ExitAt(line: string, a: int, b: int) {
    0 <= a <= b <= |line| && Lower(line[a..b]) == "exit"
    && (forall j :: 0 <= j < a ==> IsSpace(line[j]))
    && (forall j :: b <= j < |line| ==> IsSpace(line[j]))
  }

  /** Exactly the lines that spell "exit" in any case between whitespace margins end
      the loop. */
  lemma ExitLines(line: string)
    ensures IsExit(line) <==> exists a, b :: ExitAt(line, a, b)
  {
    var a, b := StripSlice(line);
    if IsExit(line) {
      LowerSlice(line, a, b);
      assert ExitAt(line, a, b);
    }
    if exists a, b :: ExitAt(line, a, b) {
      var a', b' :| ExitAt(line, a', b');
      var w := line[a'..b'];
      assert |w| == 4;
      assert LowerChar(w[0]) == 'e' && LowerChar(w[3]) == 't';
      assert !IsSpace(line[a']) && !IsSpace(line[b' - 1]);
      StripUnique(line, a', b');
    }
  }

  lemma IsExitExample()
    ensures IsExit("  EXIT\n")
  {
    assert TrimStart("  EXIT\n") == TrimStart(" EXIT\n") == TrimStart("EXIT\n") == "EXIT\n";
    assert TrimEnd("EXIT\n") == TrimEnd("EXIT") == "EXIT";
    assert Lower("EXIT") == "exit";
  }

  /** What one turn reads from outside: the typed line, the documents the retriever
      returns for it and the language model's raw answer. */
  datatype Input = Input(line: string, docs: seq<Document>, rawAnswer: string)

  /** What one turn produces: either the end of the loop, or the printed listing,
      the context, history text and question handed to the prompt, and the printed
      answer. */
  datatype Turn =
    | Exit
    | Answered(sources: seq<ShownSource>, context: string, historyText: string,
               question: string, answer: string)

  /** The exchange a non-exit input appends to the history. */
  function ExchangeOf(input: Input): (e: Exchange)
    ensures e.question == Strip(input.line)
    ensures YesNoMode(input.line) ==> InVocabulary(e.answer)
    ensures !YesNoMode(input.line) ==> e.answer == input.rawAnswer
  {
    var query := Strip(input.line);
    YesNoModeIgnoresStrip(input.line);
    Exchange(query, PostProcess(YesNoMode(query), input.rawAnswer))
  }

  /** The exchanges a sequence of inputs appends: one per input, up to the first exit. */
  function Transcript(inputs: seq<Input>): (t: seq<Exchange>)
    ensures |t| <= |inputs|
    decreases |inputs|
  {
    if inputs == [] || IsExit(inputs[0].line) then []
    else [ExchangeOf(inputs[0])] + Transcript(inputs[1..])
  }

  /** The answers printed for a transcript, in order. */
  function Answers(t: seq<Exchange>): (r: seq<string>)
    ensures |r| == |t|
    ensures forall i :: 0 <= i < |t| ==> r[i] == t[i].answer
    decreases |t|
  {
    if t == [] then [] else Answers(t[..|t| - 1]) + [t[|t| - 1].answer]
  }

  ghost predicate NoExit(inputs: seq<Input>) {
    forall i :: 0 <= i < |inputs| ==> !IsExit(inputs[i].line)
  }

  /** Without an exit, every input contributes its exchange, in order. */
  lemma {:induction false} TranscriptWithoutExit(inputs: seq<Input>)
    requires NoExit(inputs)
    ensures |Transcript(inputs)| == |inputs|
    ensures forall i :: 0 <= i < |inputs| ==> Transcript(inputs)[i] == ExchangeOf(inputs[i])
    decreases |inputs|
  {
    if inputs != [] {
      TranscriptWithoutExit(inputs[1..]);
    }
  }

  /** The transcript holds the exchanges of the inputs before the first exit line, in
      order, and stops there: it is shorter than the inputs only at an exit line. */
  lemma {:induction false} TranscriptUpToExit(inputs: seq<Input>)
    ensures forall i :: 0 <= i < |Transcript(inputs)| ==>
      !IsExit(inputs[i].line) && Transcript(inputs)[i] == ExchangeOf(inputs[i])
    ensures |Transcript(inputs)| < |inputs| ==> IsExit(inputs[|Transcript(inputs)|].line)
    decreases |inputs|
  {
    if inputs != [] && !IsExit(inputs[0].line) {
      var rest := inputs[1..];
      TranscriptUpToExit(rest);
      var t := Transcript(inputs);
      assert t == [ExchangeOf(inputs[0])] + Transcript(rest);
      forall i | 0 <= i < |t|
        ensures !IsExit(inputs[i].line) && t[i] == ExchangeOf(inputs[i])
      {
        if i > 0 {
          assert inputs[i] == rest[i - 1];
        }
      }
    }
  }

  /** Inputs after an exit contribute nothing. */
  lemma {:induction false} TranscriptStopsAtExit(inputs: seq<Input>, rest: seq<Input>)
    requires |Transcript(inputs)| == |inputs| && rest != [] && IsExit(rest[0].line)
    ensures Transcript(inputs + rest) == Transcript(inputs)
    decreases |inputs|
  {
    if inputs == [] {
      assert inputs + rest == rest;
    } else {
      assert (inputs + rest)[1..] == inputs[1..] + rest;
      TranscriptStopsAtExit(inputs[1..], rest);
    }
  }

  /** One more non-exit input appends one exchange. */
  lemma {:induction false} TranscriptExtend(inputs: seq<Input>, input: Input)
    requires |Transcript(inputs)| == |inputs| && !IsExit(input.line)
    ensures Transcript(inputs + [input]) == Transcript(inputs) + [ExchangeOf(input)]
    decreases |inputs|
  {
    if inputs == [] {
      assert inputs + [input] == [input];
    } else {
      assert (inputs + [input])[1..] == inputs[1..] + [input];
      TranscriptExtend(inputs[1..], input);
    }
  }

  /** The loop reaches input `i` only when none before it was an exit; if it is not one
      either, it adds its exchange and its answer. */
  lemma TranscriptNext(inputs: seq<Input>, i: nat)
    requires i < |inputs| && |Transcript(inputs[..i])| == i && !IsExit(inputs[i].line)
    ensures Transcript(inputs[..i + 1]) == Transcript(inputs[..i]) + [ExchangeOf(inputs[i])]
    ensures Answers(Transcript(inputs[..i + 1]))
      == Answers(Transcript(inputs[..i])) + [ExchangeOf(inputs[i]).answer]
  {
    var t := Transcript(inputs[..i]);
    TranscriptExtend(inputs[..i], inputs[i]);
    assert inputs[..i + 1] == inputs[..i] + [inputs[i]];
    assert (t + [ExchangeOf(inputs[i])])[..|t|] == t;
  }

  /** If input `i` is the first exit, the transcript is that of the inputs before it. */
  lemma TranscriptEndsAt(inputs: seq<Input>, i: nat)
    requires i < |inputs| && |Transcript(inputs[..i])| == i && IsExit(inputs[i].line)
    ensures Transcript(inputs) == Transcript(inputs[..i])
  {
    TranscriptStopsAtExit(inputs[..i], inputs[i..]);
    assert inputs[..i] + inputs[i..] == inputs;
  }

  class Session {
    /** `history`: every completed exchange, oldest first; it is never trimmed. */
    var history: seq<Exchange>

    constructor ()
      ensures history == []
    {
      history := [];
    }

    /** One iteration of the loop. An exit line ends it and leaves the history alone;
        any other line lists the sources, hands the context and the rendering of the
        history so far to the prompt, post-processes the raw answer and appends
        exactly one exchange. */
    method Step(input: Input) returns (turn: Turn)
      modifies this
      ensures IsExit(input.line) ==> turn == Exit && history == old(history)
      ensures !IsExit(input.line) ==>
        turn == Answered(Listing(input.docs), Context(input.docs), Render(old(history)),
                         Strip(input.line), ExchangeOf(input).answer)
        && history == old(history) + [ExchangeOf(input)]
    {
      if IsExit(input.line) {
        return Exit;
      }
      var query := Strip(input.line);
      var yesNo := YesNoMode(query);
      var listing := ShowSources(input.docs);
      var context := Context(input.docs);
      var historyText := Render(history);
      var answer := input.rawAnswer;
      if yesNo {
        answer := Normalise(answer);
      }
      history := history + [Exchange(query, answer)];
      turn := Answered(listing, context, historyText, query, answer);
    }

    /** The `while True` loop over the console inputs, up to the first exit or the end
        of the input. It returns the answers it printed. */
    method Run(inputs: seq<Input>) returns (answers: seq<string>)
      modifies this
      ensures history == old(history) + Transcript(inputs)
      ensures answers == Answers(Transcript(inputs))
    {
      answers := [];
      for i := 0 to |inputs|
        invariant |Transcript(inputs[..i])| == i
        invariant history == old(history) + Transcript(inputs[..i])
        invariant answers == Answers(Transcript(inputs[..i]))
      {
        var turn := Step(inputs[i]);
        if turn.Exit? {
          TranscriptEndsAt(inputs, i);
          return;
        }
        TranscriptNext(inputs, i);
        answers := answers + [turn.answer];
      }
      assert inputs[..|inputs|] == inputs;
    }
  }
}
