/** How `transcribe_audio` turns the model's reply into the two transcripts:
    the reply is expected to hold an "[ORIGINAL]" section followed by an
    "[ENGLISH]" section; when either marker is missing, the whole reply
    stands for both. */
module ResponseParser {
  import opened Wrappers
  import opened PyText

  const OriginalMarker: string := "[ORIGINAL]"
  const EnglishMarker: string := "[ENGLISH]"

  datatype Sections = Sections(original: string, english: string)

  /** `"[ORIGINAL]" in text and "[ENGLISH]" in text`. The two markers
      cannot overlap, so a marked reply holds both side by side. */
  predicate Marked(text: string)
    ensures Marked(text) ==> |text| >= |OriginalMarker| + |EnglishMarker|
  {
    MarkersApart(text);
    Contains(text, OriginalMarker) && Contains(text, EnglishMarker)
  }

  lemma MarkersApart(text: string)
    ensures Contains(text, OriginalMarker) && Contains(text, EnglishMarker) ==>
      |text| >= |OriginalMarker| + |EnglishMarker|
  {
    if Contains(text, OriginalMarker) && Contains(text, EnglishMarker) {
      MarkerShapes();
      OccurrencesApart(text, OriginalMarker, EnglishMarker,
                       Find(text, OriginalMarker).value, Find(text, EnglishMarker).value);
    }
  }

  /** Neither end of `s` is whitespace. */
  predicate Trimmed(s: string) {
    s == [] || (s[0] !in Whitespace && s[|s| - 1] !in Whitespace)
  }

  /** Stripping a string free of `p` leaves it free of `p`. */
  lemma StripKeepsAbsence(s: string, p: string)
    requires !Contains(s, p)
    ensures !Contains(Strip(s), p)
  {
    var i := StripBounds(s, Whitespace);
    NotContainsInfix(s, i, i + |Strip(s)|, p);
  }

  /** The marker split of `transcribe_audio`: with both markers, the text
      before the first "[ENGLISH]" with "[ORIGINAL]" removed, and the text
      between the first and a second "[ENGLISH]", each stripped; otherwise
      the reply, unstripped, as both. */
  function Parse(text: string): (r: Sections)
    ensures !Marked(text) ==> r.original == text && r.english == text
    ensures Marked(text) ==> Trimmed(r.original) && Trimmed(r.english)
    ensures Marked(text) ==> !Contains(r.english, EnglishMarker)
  {
    if Marked(text) then
      var parts := Split(text, EnglishMarker);
      assert !Contains(Strip(parts[1]), EnglishMarker) by {
        StripKeepsAbsence(parts[1], EnglishMarker);
      }
      Sections(Strip(Replace(parts[0], OriginalMarker, "")), Strip(parts[1]))
    else
      Sections(text, text)
  }

  /** The two sections located with `find` rather than `split`: the original
      comes from the prefix before the first "[ENGLISH]", the English section
      from what follows it up to the next "[ENGLISH]" or the end. */
  lemma SectionsByFind(text: string)
    requires Marked(text)
    ensures var i := Find(text, EnglishMarker).value;
      Parse(text).original == Strip(Replace(text[..i], OriginalMarker, ""))
    ensures var rest := text[Find(text, EnglishMarker).value + |EnglishMarker|..];
      Parse(text).english == Strip(match Find(rest, EnglishMarker)
                                   case Some(k) => rest[..k]
                                   case None => rest)
  {
    var i := Find(text, EnglishMarker).value;
    var rest := text[i + |EnglishMarker|..];
    assert Split(text, EnglishMarker)[1] == Split(rest, EnglishMarker)[0];
  }

  /** The shapes of the two markers that the split relies on: each has its
      '[' only in front, and they part at their second character. */
  lemma MarkerShapes()
    ensures HeadUnique(OriginalMarker) && HeadUnique(EnglishMarker)
    ensures |OriginalMarker| >= 2 && |EnglishMarker| >= 2
    ensures OriginalMarker[0] == EnglishMarker[0] && OriginalMarker[1] != EnglishMarker[1]
    ensures forall t | 1 <= t < |OriginalMarker| :: OriginalMarker[t] != EnglishMarker[0]
  {
  }

  /** A reply in the layout the prompt asks for, `pre` and `tail` aside. */
  function LaidOut(pre: string, orig: string, eng: string, tail: string): string {
    pre + OriginalMarker + orig + EnglishMarker + eng + tail
  }

  /** Where `split` cuts a reply laid out as `ParseLaidOut` describes. */
  lemma SplitLaidOut(pre: string, orig: string, eng: string, tail: string)
    requires !Contains(pre, OriginalMarker) && !Contains(pre, EnglishMarker)
    requires !Contains(orig, OriginalMarker) && !Contains(orig, EnglishMarker)
    requires !Contains(eng, EnglishMarker)
    requires tail == [] || OccursAt(tail, EnglishMarker, 0)
    ensures var text := LaidOut(pre, orig, eng, tail);
      && Marked(text)
      && Split(text, EnglishMarker)[0] == pre + OriginalMarker + orig
      && Split(text, EnglishMarker)[1] == eng
  {
    var O, E := OriginalMarker, EnglishMarker;
    var head := pre + O + orig;
    var after := eng + tail;
    var text := head + E + after;
    assert text == LaidOut(pre, orig, eng, tail);
    MarkerShapes();
    assert Split(text, E) == [head] + Split(after, E) by {
      NotContainsAround(pre, O, orig, E);
      SplitAfterFree(head, E, after);
    }
    SplitFirstPiece(eng, tail, E);
    assert Contains(text, O) by {
      assert text == pre + O + (orig + E + after);
      ContainsInfix(pre, O, orig + E + after);
    }
  }

  /** A reply laid out as requested, `pre [ORIGINAL] orig [ENGLISH] eng`,
      possibly followed by a second "[ENGLISH]" and more: the original is
      `pre` and `orig` stripped, so text before "[ORIGINAL]" is kept, and the
      English section is `eng` stripped, so all after a second "[ENGLISH]" is
      dropped. */
  lemma ParseLaidOut(pre: string, orig: string, eng: string, tail: string)
    requires !Contains(pre, OriginalMarker) && !Contains(pre, EnglishMarker)
    requires !Contains(orig, OriginalMarker) && !Contains(orig, EnglishMarker)
    requires !Contains(eng, EnglishMarker)
    requires tail == [] || OccursAt(tail, EnglishMarker, 0)
    ensures Parse(LaidOut(pre, orig, eng, tail)) == Sections(Strip(pre + orig), Strip(eng))
  {
    SplitLaidOut(pre, orig, eng, tail);
    MarkerShapes();
    RemoveAround(pre, OriginalMarker, orig);
  }

  /** Neither marker has whitespace at its ends. */
  lemma MarkerIsTrimmed(m: string)
    requires m == OriginalMarker || m == EnglishMarker
    ensures Strip(m) == m
  {
    assert m[0] !in Whitespace && m[|m| - 1] !in Whitespace;
    StripIs(m, Whitespace, 0, |m|);
  }

  /** Removing "[ORIGINAL]" can itself form a new "[ORIGINAL]", so the
      original section may still hold that marker: the reply
      "[ORIG[ORIGINAL]INAL][ENGLISH]" has "[ORIGINAL]" as its original. */
  lemma RemovalCanFormOriginalMarker(pre: string, orig: string)
    requires pre + orig == OriginalMarker && |pre| == 5
    ensures Parse(pre + OriginalMarker + orig + EnglishMarker).original == OriginalMarker
  {
    var text := pre + OriginalMarker + orig + EnglishMarker;
    assert Parse(text).original == Strip(pre + orig) by {
      ParseLaidOut(pre, orig, "", "");
      assert LaidOut(pre, orig, "", "") == text;
    }
    MarkerIsTrimmed(OriginalMarker);
  }

  /** Removing "[ORIGINAL]" can form an "[ENGLISH]", so the original section
      may hold that marker too: the reply "[ENG[ORIGINAL]LISH][ENGLISH]" has
      "[ENGLISH]" as its original. */
  lemma RemovalCanFormEnglishMarker(pre: string, orig: string)
    requires pre + orig == EnglishMarker && |pre| == 4
    ensures Parse(pre + OriginalMarker + orig + EnglishMarker).original == EnglishMarker
  {
    var text := pre + OriginalMarker + orig + EnglishMarker;
    assert Parse(text).original == Strip(pre + orig) by {
      ParseLaidOut(pre, orig, "", "");
      assert LaidOut(pre, orig, "", "") == text;
    }
    MarkerIsTrimmed(EnglishMarker);
  }
}
