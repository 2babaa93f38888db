/** The `POST /ask` handler: one stateless request. The retriever's documents and the
    language model's raw answer are part of the input. */
module Api {
  import opened Text
  import opened YesNo
  import opened Retrieval

  /** The JSON body of a response: the answer and the deduplicated `(source, chunk)`
      pairs. */
  datatype Response = Response(answer: string, sources: seq<SourceKey>)

  /** What the handler hands to the prompt template. */
  datatype PromptInput = PromptInput(context: string, question: string)

  /** The source loop of the handler: skip a key already seen, append it, stop after
      three. */
  method CollectSources(docs: seq<Document>) returns (sources: seq<SourceKey>)
    ensures sources == Citations(docs)
  {
    sources := [];
    var seen: set<SourceKey> := {};
    ghost var kept: seq<Document> := [];
    for i := 0 to |docs|
      invariant kept == Firsts(docs[..i])
      invariant sources == Keys(kept)
      invariant forall k :: k in seen <==> k in sources
      invariant |sources| < MaxCitations
    {
      var key := KeyOf(docs[i]);
      if key in seen {
        assert kept == Firsts(docs[..i + 1]) by { FirstsStep(docs, i); }
        continue;
      }
      seen := seen + {key};
      sources := sources + [key];
      kept := kept + [docs[i]];
      assert kept == Firsts(docs[..i + 1]) && sources == Keys(kept) by {
        FirstsStep(docs, i);
      }
      if |sources| == MaxCitations {
        CitedStopsAt(docs, i + 1);
        return;
      }
    }
    assert docs[..|docs|] == docs;
  }

  /** One request. The question is stripped; the prompt receives the context and the
      stripped question; in yes/no mode the answer is one of the three fixed answers,
      otherwise it is the model's text untouched; the sources are the citations. */
  method Ask(question: string, docs: seq<Document>, rawAnswer: string)
    returns (resp: Response, prompt: PromptInput)
    ensures prompt == PromptInput(Context(docs), Strip(question))
    ensures YesNoMode(question) ==> InVocabulary(resp.answer) && resp.answer == Normalise(rawAnswer)
    ensures !YesNoMode(question) ==> resp.answer == rawAnswer
    ensures resp.sources == Citations(docs)
  {
    var q := Strip(question);
    var yesNo := YesNoMode(q);
    YesNoModeIgnoresStrip(question);
    var context := Context(docs);
    prompt := PromptInput(context, q);
    var answer := rawAnswer;
    if yesNo {
      answer := Normalise(answer);
    }
    var sources := CollectSources(docs);
    resp := Response(answer, sources);
  }
}
