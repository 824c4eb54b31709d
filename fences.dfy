/** Clean-up of the extraction service's reply before it is parsed as JSON:
    the reply is stripped and, when it is wrapped in a Markdown code fence,
    the text inside the first fence (without a "json" tag) is kept. */
module Fences {
  import opened Text

  const Fence: string := "```"
  const JsonTag: string := "json"

  /** `raw.split("```")[1]` for text that starts with the fence: the text
      after the opening fence, up to the next fence or to the end. */
  function SecondSegment(raw: string): (seg: string)
    requires StartsWith(raw, Fence)
    ensures 3 + |seg| <= |raw| && seg == raw[3..3 + |seg|]
    ensures !Contains(seg, Fence)
    ensures 3 + |seg| == |raw| || OccursAt(raw, Fence, 3 + |seg|)
    ensures forall j :: 3 <= j < 3 + |seg| ==> !OccursAt(raw, Fence, j)
  {
    var rest := raw[3..];
    forall j | 3 <= j && OccursAt(raw, Fence, j) ensures OccursAt(rest, Fence, j - 3) {
      SliceOfSlice(raw, 3, |raw|, j - 3, j);
    }
    match Find(rest, Fence)
    case None => rest
    case Some(i) =>
      forall j: nat | OccursAt(rest[..i], Fence, j) ensures OccursAt(rest, Fence, j) {
        assert rest[..i][j..j + 3] == rest[j..j + 3];
      }
      assert rest[i..i + 3] == raw[3 + i..3 + i + 3];
      rest[..i]
  }

  /** The cleaned reply: stripped; if it starts with a fence, the text up to
      the next fence, with one leading "json" removed, stripped again. */
  function StripFences(reply: string): (r: string)
    ensures IsTrimmed(r)
    ensures !StartsWith(Trim(reply), Fence) ==> r == Trim(reply)
    ensures StartsWith(Trim(reply), Fence) ==> !Contains(r, Fence)
  {
    var raw := Trim(reply);
    if StartsWith(raw, Fence) then
      var seg := SecondSegment(raw);
      var body := if StartsWith(seg, JsonTag) then seg[4..] else seg;
      SliceKeepsAbsence(seg, Fence, if StartsWith(seg, JsonTag) then 4 else 0, |seg|);
      assert body == seg[if StartsWith(seg, JsonTag) then 4 else 0..|seg|];
      TrimKeepsAbsence(body, Fence);
      Trim(body)
    else
      raw
  }

  /** Text whose first back-quote opens a fence at `n` has its first fence at `n`. */
  lemma FirstFenceAt(rest: string, n: nat)
    requires n + 3 <= |rest| && rest[n..n + 3] == Fence
    requires forall j :: 0 <= j < n ==> rest[j] != '`'
    ensures Find(rest, Fence) == Some(n)
  {
    assert OccursAt(rest, Fence, n);
    forall j: nat | j < n ensures !OccursAt(rest, Fence, j) {
      if j + 3 <= |rest| {
        assert rest[j..j + 3][0] == rest[j];
      }
    }
  }

  /** The text between two fences, when it holds no back-quote, is the
      second segment of the split. */
  lemma FencedSegment(inner: string)
    requires '`' !in inner
    ensures StartsWith(Fence + inner + Fence, Fence)
    ensures SecondSegment(Fence + inner + Fence) == inner
  {
    var w := Fence + inner + Fence;
    assert w[..3] == Fence;
    var rest := w[3..];
    assert rest == inner + Fence;
    var n := |inner|;
    assert rest[n..n + 3] == Fence;
    forall j | 0 <= j < n ensures rest[j] != '`' {
      assert rest[j] == inner[j];
    }
    FirstFenceAt(rest, n);
  }

  lemma TaggedHasNoBackQuote(body: string)
    requires '`' !in body
    ensures '`' !in JsonTag + body
  {
    var inner := JsonTag + body;
    forall j | 0 <= j < |inner| ensures inner[j] != '`' {
      if j >= 4 {
        assert inner[j] == body[j - 4];
      }
    }
  }

  /** Wrapping a payload in a fence tagged "json" and cleaning it up gives
      back the stripped payload, provided the payload has no back-quote. */
  lemma TaggedFenceRoundTrip(body: string)
    requires '`' !in body
    ensures StripFences(Fence + JsonTag + body + Fence) == Trim(body)
  {
    var inner := JsonTag + body;
    TaggedHasNoBackQuote(body);
    assert Fence + JsonTag + body + Fence == Fence + inner + Fence;
    FencedSegment(inner);
    TrimOfTrimmed(Fence + inner + Fence);
    assert inner[..4] == JsonTag && inner[4..] == body;
  }

  /** The same without the "json" tag, for a payload that does not itself
      begin with "json". */
  lemma PlainFenceRoundTrip(body: string)
    requires '`' !in body && !StartsWith(body, JsonTag)
    ensures StripFences(Fence + body + Fence) == Trim(body)
  {
    FencedSegment(body);
    TrimOfTrimmed(Fence + body + Fence);
  }
}
