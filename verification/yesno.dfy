/** Yes/no post-processing, shared by the command-line loop and the HTTP handler:
    detecting a question that asks for a binary answer, and reducing the language
    model's free text to one of three fixed answers. */
module YesNo {
  import opened Text

  const Oui := "Oui"
  const Non := "Non"
  const Unknown := "Je ne sais pas."

  /** The three answers the normaliser can produce. */
  predicate InVocabulary(a: string) {
    a == Oui || a == Non || a == Unknown
  }

  /** Yes/no mode: the lower-cased question contains "oui ou non" or "yes or no". */
  predicate YesNoMode(question: string) {
    Contains(Lower(question), "oui ou non") || Contains(Lower(question), "yes or no")
  }

  /** Yes/no mode means that one of the two phrases occurs at some offset of the
      lower-cased question; so the question has at least nine characters. */
  lemma YesNoModeOccurs(question: string)
    ensures YesNoMode(question) <==> (exists i :: OccursAt(Lower(question), "oui ou non", i))
                                     || (exists i :: OccursAt(Lower(question), "yes or no", i))
    ensures YesNoMode(question) ==> |question| >= |"yes or no"|
  {
  }

  /** The mode does not depend on the case of the question. */
  lemma YesNoModeIgnoresCase(question: string)
    ensures YesNoMode(Lower(question)) <==> YesNoMode(question)
  {
    LowerIdempotent(question);
  }

  /** Both callers strip the question first; that never changes the mode, because
      neither phrase starts or ends with whitespace. */
  lemma YesNoModeIgnoresStrip(line: string)
    ensures YesNoMode(Strip(line)) <==> YesNoMode(line)
  {
    ContainsLowerStrip(line, "oui ou non");
    ContainsLowerStrip(line, "yes or no");
  }

  /** The decision table on the stripped, lower-cased raw answer. The contract states
      it on the raw answer itself: stripping cannot change whether "oui" or "non"
      occurs. A conflict (both present) resolves to "Non". */
  function Normalise(raw: string): (r: string)
    ensures InVocabulary(r)
    ensures Contains(Lower(raw), "oui") && Contains(Lower(raw), "non") ==> r == Non
    ensures r == Oui <==> Contains(Lower(raw), "oui") && !Contains(Lower(raw), "non")
    ensures r == Non <==> Contains(Lower(raw), "non")
    ensures r == Unknown <==> !Contains(Lower(raw), "oui") && !Contains(Lower(raw), "non")
  {
    ContainsLowerStrip(raw, "oui");
    ContainsLowerStrip(raw, "non");
    var ans := Lower(Strip(raw));
    if Contains(ans, "oui") && Contains(ans, "non") then Non
    else if Contains(ans, "oui") then Oui
    else if Contains(ans, "non") then Non
    else Unknown
  }

  /** The `if yes_no_mode:` block: normalise in yes/no mode, otherwise pass the raw
      answer through untouched. */
  function PostProcess(yesNo: bool, raw: string): (r: string)
    ensures yesNo ==> InVocabulary(r)
    ensures !yesNo ==> r == raw
  {
    if yesNo then Normalise(raw) else raw
  }

  /** Each of the three answers normalises to itself. */
  lemma NormaliseFixesVocabulary(a: string)
    requires InVocabulary(a)
    ensures Normalise(a) == a
  {
    if a == Oui {
      assert Lower(a) == "oui";
      assert OccursAt(Lower(a), "oui", 0);
      NotContainsMissingChar(Lower(a), "non", 0);
    } else if a == Non {
      assert Lower(a) == "non";
      assert OccursAt(Lower(a), "non", 0);
    } else {
      assert Lower(a) == "je ne sais pas.";
      NotContainsMissingChar(Lower(a), "oui", 0);
      NotContainsMissingChar(Lower(a), "non", 1);
    }
  }

  /** The normaliser is idempotent. */
  lemma NormaliseIdempotent(raw: string)
    ensures Normalise(Normalise(raw)) == Normalise(raw)
  {
    NormaliseFixesVocabulary(Normalise(raw));
  }

  /** Post-processing twice under the same mode is post-processing once. */
  lemma PostProcessIdempotent(yesNo: bool, raw: string)
    ensures PostProcess(yesNo, PostProcess(yesNo, raw)) == PostProcess(yesNo, raw)
  {
    if yesNo {
      NormaliseIdempotent(raw);
    }
  }

  /** An example yes/no question. */
  lemma YesNoModeExample()
    ensures YesNoMode("Réponds par oui ou non: Paris est en France?")
  {
    var x, p, y := "Réponds par ", "oui ou non", ": Paris est en France?";
    assert x + p + y == "Réponds par oui ou non: Paris est en France?";
    assert Lower(p) == p;
    LowerConcat(x, p);
    LowerConcat(x + p, y);
    ContainsMiddle(Lower(x), p, Lower(y));
  }

  /** Four example answers: a plain yes, a plain no, neither, and a conflict, which
      resolves to "Non". */
  lemma NormaliseYesExample()
    ensures Normalise("Oui, c'est correct.") == Oui
  {
    var a := Lower("Oui, c'est correct.");
    assert a[0..3] == "oui";
    assert OccursAt(a, "oui", 0);
    NotContainsMissingChar(a, "non", 0);
  }

  lemma NormaliseNoExample()
    ensures Normalise("Non, ce n'est pas ça.") == Non
  {
    var b := Lower("Non, ce n'est pas ça.");
    assert b[0..3] == "non";
    assert OccursAt(b, "non", 0);
  }

  lemma NormaliseUnknownExample()
    ensures Normalise("Peut-être.") == Unknown
  {
    var c := Lower("Peut-être.");
    NotContainsMissingChar(c, "oui", 0);
    NotContainsMissingChar(c, "non", 1);
  }

  lemma NormaliseConflictExample()
    ensures Normalise("Oui mais non en fait") == Non
  {
    var x, p, y := "Oui mais ", "non", " en fait";
    assert x + p + y == "Oui mais non en fait";
    assert Lower(p) == p;
    LowerConcat(x, p);
    LowerConcat(x + p, y);
    ContainsMiddle(Lower(x), p, Lower(y));
  }
}
