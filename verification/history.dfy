/** The command-line conversation history: the list of (question, answer) pairs and
    the text that is substituted for `{history}` in the prompt. */
module History {
  import opened Text

  /** One completed exchange: the stripped question and the answer after
      post-processing. */
  datatype Exchange = Exchange(question: string, answer: string)

  /** Entries kept by the `[-6:]` slice. The slice is taken on a list holding one
      string per exchange, so it keeps six exchanges (twelve lines). */
  const Window := 6

  /** `f"User: {u}\nAssistant: {a}"`. */
  function Format(e: Exchange): (r: string)
    ensures |r| == |"User: "| + |e.question| + |"\nAssistant: "| + |e.answer|
    ensures r[..6] == "User: "
  {
    "User: " + e.question + "\nAssistant: " + e.answer
  }

  function FormatAll(h: seq<Exchange>): (r: seq<string>)
    ensures |r| == |h|
    ensures forall i :: 0 <= i < |h| ==> r[i] == Format(h[i])
  {
    seq(|h|, i requires 0 <= i < |h| => Format(h[i]))
  }

  /** `s[-n:]` for `n > 0`: the last `n` elements, or all of them when there are fewer. */
  function Last<T>(s: seq<T>, n: nat): (r: seq<T>)
    ensures |r| == if |s| <= n then |s| else n
    ensures r == s[|s| - |r|..]
  {
    if |s| <= n then s else s[|s| - n..]
  }

  /** `"\n".join([f"User: {u}\nAssistant: {a}" for u, a in history][-6:])`. */
  function Render(h: seq<Exchange>): (r: string)
    ensures h == [] ==> r == ""
  {
    Join(Last(FormatAll(h), Window), "\n")
  }

  /** The rendering is the last `min(6, |h|)` exchanges, oldest first, each formatted
      on its own pair of lines and separated by a line break. */
  lemma RenderIsWindow(h: seq<Exchange>)
    ensures Render(h) == Join(FormatAll(Last(h, Window)), "\n")
    ensures |Last(h, Window)| == if |h| <= Window then |h| else Window
  {
    assert Last(FormatAll(h), Window) == FormatAll(Last(h, Window));
  }

  /** Only the last six exchanges count: whatever came before them is not rendered. */
  lemma RenderDropsOlder(older: seq<Exchange>, recent: seq<Exchange>)
    requires |recent| >= Window
    ensures Render(older + recent) == Render(recent)
  {
    var all := FormatAll(older + recent);
    assert all == FormatAll(older) + FormatAll(recent);
    assert Last(all, Window) == Last(FormatAll(recent), Window);
  }

  /** While the window is not full, a new exchange is rendered after all the earlier
      ones, oldest first, on its own line. */
  lemma RenderGrows(h: seq<Exchange>, e: Exchange)
    requires 0 < |h| < Window
    ensures Render(h + [e]) == Render(h) + "\n" + Format(e)
  {
    var fs, f := FormatAll(h), Format(e);
    assert FormatAll(h + [e]) == fs + [f];
    assert Last(fs + [f], Window) == fs + [f];
    assert Last(fs, Window) == fs;
    JoinAppend(fs, [f], "\n");
    assert Join([f], "\n") == f;
  }

  /** Once the window is full, a new exchange pushes the oldest rendered one out. */
  lemma RenderSlides(h: seq<Exchange>, e: Exchange)
    requires |h| >= Window
    ensures Render(h + [e]) == Render(h[|h| - Window + 1..]) + "\n" + Format(e)
  {
    var k := |h| - Window + 1;
    assert h + [e] == h[..k] + (h[k..] + [e]);
    RenderDropsOlder(h[..k], h[k..] + [e]);
    RenderGrows(h[k..], e);
  }

  /** A history of one exchange renders as that exchange alone. */
  lemma RenderSingle(e: Exchange)
    ensures Render([e]) == "User: " + e.question + "\nAssistant: " + e.answer
  {
  }
}
