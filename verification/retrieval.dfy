/** What the query code does with the documents the retriever returns: the citation
    key of each document, the first-occurrence deduplication capped at three keys,
    the snippet shown for a cited document and the context handed to the prompt.
    The retriever itself is outside the model: its result is an arbitrary sequence. */
module Retrieval {
  import opened Text

  /** A metadata value as the vector store keeps it. */
  datatype MetaValue = Str(text: string) | Int(number: int)

  type Metadata = map<string, MetaValue>

  /** A retrieved document: its text and its metadata dictionary. */
  datatype Document = Document(pageContent: string, metadata: Metadata)

  /** The `(source, chunk)` pair that identifies a citation. */
  datatype SourceKey = SourceKey(source: MetaValue, chunk: MetaValue)

  /** Citations stop after this many distinct keys. */
  const MaxCitations := 3

  /** Characters of page content kept in a snippet, before the "..." marker. */
  const SnippetLength := 180

  const MissingSource := Str("unknown")
  const MissingChunk := Str("?")

  /** `metadata.get(key, default)`. */
  function Get(m: Metadata, key: string, default: MetaValue): (v: MetaValue)
    ensures key in m ==> v == m[key]
    ensures key !in m ==> v == default
  {
    if key in m then m[key] else default
  }

  /** The citation key of a document; missing metadata defaults to "unknown" and "?". */
  function KeyOf(d: Document): SourceKey {
    SourceKey(Get(d.metadata, "source", MissingSource), Get(d.metadata, "chunk", MissingChunk))
  }

  /** A document without "source" or "chunk" metadata gets the default in that slot;
      one with both gets its stored values. */
  lemma KeyOfDefaults(d: Document)
    ensures "source" !in d.metadata ==> KeyOf(d).source == MissingSource
    ensures "chunk" !in d.metadata ==> KeyOf(d).chunk == MissingChunk
    ensures "source" in d.metadata && "chunk" in d.metadata ==>
      KeyOf(d) == SourceKey(d.metadata["source"], d.metadata["chunk"])
  {
  }

  function Keys(ds: seq<Document>): (ks: seq<SourceKey>)
    ensures |ks| == |ds|
    ensures forall i :: 0 <= i < |ds| ==> ks[i] == KeyOf(ds[i])
  {
    seq(|ds|, i requires 0 <= i < |ds| => KeyOf(ds[i]))
  }

  lemma KeysAppend(ds: seq<Document>, es: seq<Document>)
    ensures Keys(ds + es) == Keys(ds) + Keys(es)
  {
  }

  /** No two documents of `ds` share a key. */
  ghost predicate DistinctKeys(ds: seq<Document>) {
    forall i, j :: 0 <= i < j < |ds| ==> KeyOf(ds[i]) != KeyOf(ds[j])
  }

  /** The documents that carry the first occurrence of their key, in retrieval order:
      scanning left to right, a document is kept unless a kept one has its key. */
  function Firsts(docs: seq<Document>): (r: seq<Document>)
    ensures |r| <= |docs|
    decreases |docs|
  {
    if docs == [] then []
    else
      var prev := Firsts(docs[..|docs| - 1]);
      var d := docs[|docs| - 1];
      if KeyOf(d) in Keys(prev) then prev else prev + [d]
  }

  /** The kept documents have pairwise distinct keys, are all retrieved documents, and
      between them carry every retrieved key. */
  lemma {:induction false} FirstsProperties(docs: seq<Document>)
    ensures DistinctKeys(Firsts(docs))
    ensures forall d :: d in Firsts(docs) ==> d in docs
    ensures forall i :: 0 <= i < |docs| ==> KeyOf(docs[i]) in Keys(Firsts(docs))
    decreases |docs|
  {
    if docs != [] {
      var front := docs[..|docs| - 1];
      FirstsProperties(front);
      var prev := Firsts(front);
      var d := docs[|docs| - 1];
      assert forall i :: 0 <= i < |docs| - 1 ==> docs[i] == front[i];
      if KeyOf(d) !in Keys(prev) {
        KeysAppend(prev, [d]);
        assert Keys(prev + [d]) == Keys(prev) + [KeyOf(d)];
        assert forall i :: 0 <= i < |docs| - 1 ==> KeyOf(docs[i]) in Keys(prev);
      }
    }
  }

  /** No document before position `i` has the key of `docs[i]`. */
  ghost predicate IsFirstAt(docs: seq<Document>, i: int)
    requires 0 <= i < |docs|
  {
    forall k :: 0 <= k < i ==> KeyOf(docs[k]) != KeyOf(docs[i])
  }

  /** Reference definition of the first occurrences: keep `docs[i]` exactly when no
      earlier document has its key. */
  ghost function FirstOccurrences(docs: seq<Document>): seq<Document>
    decreases |docs|
  {
    if docs == [] then []
    else
      FirstOccurrences(docs[..|docs| - 1])
        + (if IsFirstAt(docs, |docs| - 1) then [docs[|docs| - 1]] else [])
  }

  /** The last document's key was kept before exactly when it is not a first occurrence. */
  lemma SeenBefore(docs: seq<Document>)
    requires |docs| > 0
    ensures KeyOf(docs[|docs| - 1]) in Keys(Firsts(docs[..|docs| - 1])) <==> !IsFirstAt(docs, |docs| - 1)
  {
    var n := |docs| - 1;
    var front := docs[..n];
    var prev := Firsts(front);
    var key := KeyOf(docs[n]);
    FirstsProperties(front);
    if key in Keys(prev) {
      var j :| 0 <= j < |prev| && Keys(prev)[j] == key;
      assert prev[j] in front;
      var k :| 0 <= k < n && front[k] == prev[j];
      assert KeyOf(docs[k]) == key;
    } else {
      forall k | 0 <= k < n ensures KeyOf(docs[k]) != key {
        assert docs[k] == front[k];
      }
    }
  }

  /** The scan that compares against the keys already kept selects exactly the first
      occurrence of every key, in the order of the retrieved documents. */
  lemma {:induction false} FirstsAreFirstOccurrences(docs: seq<Document>)
    ensures Firsts(docs) == FirstOccurrences(docs)
    decreases |docs|
  {
    if docs != [] {
      FirstsAreFirstOccurrences(docs[..|docs| - 1]);
      SeenBefore(docs);
    }
  }

  /** One more document either repeats a key already kept or is kept itself. */
  lemma FirstsStep(docs: seq<Document>, i: nat)
    requires i < |docs|
    ensures KeyOf(docs[i]) in Keys(Firsts(docs[..i])) ==> Firsts(docs[..i + 1]) == Firsts(docs[..i])
    ensures KeyOf(docs[i]) !in Keys(Firsts(docs[..i])) ==>
      Firsts(docs[..i + 1]) == Firsts(docs[..i]) + [docs[i]]
      && Keys(Firsts(docs[..i + 1])) == Keys(Firsts(docs[..i])) + [KeyOf(docs[i])]
  {
    assert docs[..i + 1][..i] == docs[..i];
    KeysAppend(Firsts(docs[..i]), [docs[i]]);
  }

  /** Looking at more documents only extends the first occurrences found so far. */
  lemma {:induction false} FirstsPrefix(docs: seq<Document>, more: seq<Document>)
    ensures |Firsts(docs)| <= |Firsts(docs + more)|
    ensures Firsts(docs + more)[..|Firsts(docs)|] == Firsts(docs)
    decreases |more|
  {
    if more != [] {
      var m := |more| - 1;
      assert (docs + more)[..|docs + more| - 1] == docs + more[..m];
      FirstsPrefix(docs, more[..m]);
    } else {
      assert docs + more == docs;
    }
  }

  /** `s[:n]`. */
  function Take<T>(s: seq<T>, n: nat): (r: seq<T>)
    ensures |r| == if |s| <= n then |s| else n
    ensures r == s[..|r|]
  {
    if |s| <= n then s else s[..n]
  }

  /** The documents whose keys are cited: the first three first occurrences. */
  function Cited(docs: seq<Document>): (r: seq<Document>)
    ensures |r| <= MaxCitations
  {
    Take(Firsts(docs), MaxCitations)
  }

  /** The deduplicated citation keys: pairwise distinct, at most three, all of them keys
      of retrieved documents, and, when fewer than three, every retrieved key. */
  function Citations(docs: seq<Document>): (r: seq<SourceKey>)
    ensures |r| <= MaxCitations
    ensures forall i, j :: 0 <= i < j < |r| ==> r[i] != r[j]
    ensures forall k :: k in r ==> k in Keys(docs)
    ensures |r| < MaxCitations ==> forall i :: 0 <= i < |docs| ==> KeyOf(docs[i]) in r
  {
    var c := Cited(docs);
    FirstsProperties(docs);
    forall k | k in Keys(c) ensures k in Keys(docs) {
      var j :| 0 <= j < |c| && Keys(c)[j] == k;
      assert c[j] in docs;
      var i :| 0 <= i < |docs| && docs[i] == c[j];
      assert Keys(docs)[i] == k;
    }
    Keys(c)
  }

  /** The citations are the keys of the first `min(3, #keys)` first occurrences. */
  lemma CitationsAreFirstKeys(docs: seq<Document>)
    ensures Citations(docs) == Keys(Take(FirstOccurrences(docs), MaxCitations))
  {
    FirstsAreFirstOccurrences(docs);
  }

  /** Once three distinct keys have been seen, later documents never change the
      citations: the scan has stopped. */
  lemma CitationsStable(docs: seq<Document>, more: seq<Document>)
    requires |Firsts(docs)| >= MaxCitations
    ensures Citations(docs + more) == Citations(docs)
  {
    FirstsPrefix(docs, more);
    assert Take(Firsts(docs + more), MaxCitations) == Firsts(docs + more)[..|Firsts(docs)|][..MaxCitations];
  }

  /** When the first `n` documents already hold three distinct keys, the cited
      documents are exactly their first occurrences: the loop may stop at `n`. */
  lemma CitedStopsAt(docs: seq<Document>, n: nat)
    requires n <= |docs| && |Firsts(docs[..n])| == MaxCitations
    ensures Cited(docs) == Firsts(docs[..n])
  {
    FirstsPrefix(docs[..n], docs[n..]);
    assert docs[..n] + docs[n..] == docs;
  }

  /** Documents without "source" and "chunk" metadata all share the key
      ("unknown", "?") and therefore collapse into a single citation. */
  lemma MissingMetadataCollapses(docs: seq<Document>)
    requires |docs| > 0
    requires forall d :: d in docs ==> "source" !in d.metadata && "chunk" !in d.metadata
    ensures Citations(docs) == [SourceKey(MissingSource, MissingChunk)]
  {
    var r := Firsts(docs);
    var key := SourceKey(MissingSource, MissingChunk);
    FirstsProperties(docs);
    assert KeyOf(docs[0]) in Keys(r);
    forall d | d in r ensures KeyOf(d) == key {
      assert d in docs;
    }
    assert |r| > 0;
    assert forall i :: 0 <= i < |r| ==> KeyOf(r[i]) == key;
    assert |r| > 1 ==> KeyOf(r[0]) != KeyOf(r[1]);
    assert |r| <= 1;
    assert Keys(r) == [KeyOf(r[0])];
  }

  /** `(page_content[:180] + "...").replace("\n", " ")`. */
  function Snippet(content: string): (r: string)
    ensures |r| == (if |content| < SnippetLength then |content| else SnippetLength) + 3
    ensures |r| <= SnippetLength + 3
    ensures '\n' !in r
    ensures r[|r| - 3..] == "..."
    ensures forall i :: 0 <= i < |r| - 3 ==> r[i] == (if content[i] == '\n' then ' ' else content[i])
  {
    var kept := Take(content, SnippetLength);
    var r := ReplaceNewlines(kept + "...");
    assert r[|r| - 3..] == "...";
    r
  }

  function Contents(docs: seq<Document>): (cs: seq<string>)
    ensures |cs| == |docs|
    ensures forall i :: 0 <= i < |docs| ==> cs[i] == docs[i].pageContent
  {
    seq(|docs|, i requires 0 <= i < |docs| => docs[i].pageContent)
  }

  /** `"\n\n".join(d.page_content for d in docs)`. */
  function Context(docs: seq<Document>): (r: string)
    ensures docs == [] ==> r == ""
    ensures |docs| == 1 ==> r == docs[0].pageContent
  {
    Join(Contents(docs), "\n\n")
  }

  /** The context of two batches of documents is their contexts joined by a blank
      line, so it keeps retrieval order. */
  lemma ContextAppend(docs: seq<Document>, more: seq<Document>)
    requires |docs| > 0 && |more| > 0
    ensures Context(docs + more) == Context(docs) + "\n\n" + Context(more)
  {
    assert Contents(docs + more) == Contents(docs) + Contents(more);
    JoinAppend(Contents(docs), Contents(more), "\n\n");
  }

  /** Every document, repeated or not, contributes all of its text to the context. */
  lemma ContextLength(docs: seq<Document>)
    requires |docs| > 0
    ensures |Context(docs)| == TotalLength(Contents(docs)) + 2 * (|docs| - 1)
  {
    JoinLength(Contents(docs), "\n\n");
  }
}
