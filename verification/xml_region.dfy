/** Isolation of the XML payload embedded in an EDGAR composite filing document
    (downloader/main.go:91-102). The document is cut at `<XML>`, which must occur
    exactly once, and what follows is cut at `</XML>`, which must then occur exactly
    once; the text between the two markers is the payload. Any other shape makes
    the caller skip the filing. */
module XmlRegion {
  import opened Results
  import opened GoStrings

  const Open: string := "<XML>"
  const Close: string := "</XML>"

  /** The payload between the markers, or None when the split counts are not both two. */
  function Isolate(content: string): (body: Option<string>)
    ensures body.Some? ==> !Contains(body.value, Open) && !Contains(body.value, Close)
  {
    var parts := Split(content, Open);
    if |parts| != 2 then None
    else
      var inner := Split(parts[1], Close);
      if |inner| != 2 then None
      else
        assert !Contains(inner[0], Open) by {
          assert parts[1] == inner[0] + (Close + inner[1]);
          if Contains(inner[0], Open) {
            ContainsConcat(inner[0], Close + inner[1], Open);
          }
        }
        Some(inner[0])
  }

  /** Both markers have a first character that never reappears, so neither has a border. */
  lemma MarkersHaveNoBorder()
    ensures NoBorder(Open) && NoBorder(Close)
  {
    HeadUniqueNoBorder(Open);
    HeadUniqueNoBorder(Close);
  }

  /** `<XML>` occurs exactly once, at `i`, and the text after it holds exactly one `</XML>`. */
  ghost predicate DelimitedAt(content: string, i: int)
  {
    && OccursAt(content, Open, i)
    && (forall k :: OccursAt(content, Open, k) ==> k == i)
    && OccursOnce(content[i + |Open|..], Close)
  }

  /** A composite document with one well-placed marker pair. */
  ghost predicate WellDelimited(content: string)
  {
    exists i :: DelimitedAt(content, i)
  }

  /** Isolation succeeds exactly on documents with one `<XML>` followed by exactly one
      `</XML>`; zero or several opening markers, or zero or several closing markers after
      it, make the filing be skipped. */
  lemma {:induction false} IsolateSucceedsIffWellDelimited(content: string)
    ensures Isolate(content).Some? <==> WellDelimited(content)
  {
    MarkersHaveNoBorder();
    var parts := Split(content, Open);
    SplitTwoIffOnce(content, Open);
    var i := Index(content, Open);
    if |parts| == 2 {
      assert i >= 0;
      assert parts == [content[..i]] + Split(content[i + |Open|..], Open);
      assert parts[1] == content[i + |Open|..];
      SplitTwoIffOnce(parts[1], Close);
      if WellDelimited(content) {
        var k :| DelimitedAt(content, k);
        assert k == i;
      }
      if Isolate(content).Some? {
        assert DelimitedAt(content, i);
      }
    }
  }

  /** What success means: the document is prefix, `<XML>`, payload, `</XML>`, suffix;
      the prefix has no `<XML>`, the payload has neither marker, and nothing after the
      opening marker repeats it, nor anything after the closing marker repeat that. */
  predicate Frames(content: string, pre: string, body: string, post: string)
  {
    && content == pre + Open + body + Close + post
    && !Contains(pre, Open)
    && !Contains(body + Close + post, Open)
    && !Contains(body, Close)
    && !Contains(post, Close)
  }

  /** Soundness: a successful isolation is framed by exactly one marker pair, and the
      payload contains neither marker. */
  lemma IsolateFrames(content: string)
    requires Isolate(content).Some?
    ensures exists pre, post :: Frames(content, pre, Isolate(content).value, post)
    ensures !Contains(Isolate(content).value, Open) && !Contains(Isolate(content).value, Close)
  {
    var parts := Split(content, Open);
    var inner := Split(parts[1], Close);
    var body := inner[0];
    assert content == parts[0] + Open + parts[1];
    assert parts[1] == body + Close + inner[1];
    assert content == parts[0] + Open + body + Close + inner[1];
    assert Frames(content, parts[0], body, inner[1]);
  }

  /** Completeness: any framing of the document is the one isolation finds. */
  lemma IsolateFindsFrame(content: string, pre: string, body: string, post: string)
    requires Frames(content, pre, body, post)
    ensures Isolate(content) == Some(body)
  {
    MarkersHaveNoBorder();
    var tail := body + Close + post;
    assert content == pre + Open + tail;
    SplitCons(pre, Open, tail);
    SplitNone(tail, Open);
    SplitCons(body, Close, post);
    SplitNone(post, Close);
  }

  /** A document with two opening markers is skipped, whatever surrounds them. */
  lemma TwoOpeningMarkersSkipped(a: string, b: string, c: string)
    ensures Isolate(a + Open + b + Open + c).None?
  {
    MarkersHaveNoBorder();
    var content := a + Open + b + Open + c;
    var first := |a|;
    var second := |a| + |Open| + |b|;
    assert content[first..first + |Open|] == Open;
    assert content[second..second + |Open|] == Open;
    assert OccursAt(content, Open, first) && OccursAt(content, Open, second);
    SplitTwoIffOnce(content, Open);
  }

  /** A document without an opening marker is skipped. */
  lemma NoOpeningMarkerSkipped(content: string)
    requires !Contains(content, Open)
    ensures Isolate(content).None?
  {
    SplitNone(content, Open);
  }
}
