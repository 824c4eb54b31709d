/** The completion detector: a generated reply that contains one of a fixed
    list of wrap-up phrases, ignoring case, marks the session complete. */
module Completion {
  import opened Text

  /** The wrap-up phrases, all lower case. */
  const StopSignals: seq<string> := [
    "i think i have a good picture now",
    "i think i have a good sense",
    "i feel like i understand you well",
    "i've got a solid sense of where you're at",
    "ready to talk about a plan",
    "ready to talk about next steps",
    "think we have enough to start",
    "got a good understanding now",
    "i think that's all i need",
    "we've covered the main things",
    "ready to move forward",
    "have a good sense of your background",
    "ready to discuss",
    "i think we're good to go",
    "i have a pretty complete picture"
  ]

  /** `any(phrase in text for phrase in phrases)`. */
  function AnyOccurs(phrases: seq<string>, text: string): (hit: bool)
    ensures hit <==> exists j :: 0 <= j < |phrases| && IsSubstring(phrases[j], text)
  {
    if phrases == [] then
      false
    else
      var rest := AnyOccurs(phrases[1..], text);
      assert forall j :: 1 <= j < |phrases| ==> phrases[j] == phrases[1..][j - 1];
      Contains(text, phrases[0]) || rest
  }

  /** Whether the lower-cased reply contains some wrap-up phrase. */
  function HitsStopSignal(reply: string): (hit: bool)
    ensures hit <==> exists j :: 0 <= j < |StopSignals| && IsSubstring(StopSignals[j], Lower(reply))
  {
    AnyOccurs(StopSignals, Lower(reply))
  }

  lemma {:induction false} LowerIdempotent(s: string)
    ensures Lower(Lower(s)) == Lower(s)
  {
    if s != [] {
      LowerIdempotent(s[1..]);
      assert Lower(s)[1..] == Lower(s[1..]);
    }
  }

  /** The detector ignores case: lower-casing the reply first changes nothing. */
  lemma CaseInsensitive(reply: string)
    ensures HitsStopSignal(Lower(reply)) == HitsStopSignal(reply)
  {
    LowerIdempotent(reply);
  }

  /** A reply containing a wrap-up phrase, in any mix of cases, completes. */
  lemma SignalInAnyCaseCompletes(pre: string, x: string, post: string, j: nat)
    requires j < |StopSignals| && Lower(x) == StopSignals[j]
    ensures HitsStopSignal(pre + x + post)
  {
    LowerConcat(pre + x, post);
    LowerConcat(pre, x);
    var low := Lower(pre + x + post);
    assert low[|pre|..|pre| + |x|] == Lower(x);
    assert OccursAt(low, StopSignals[j], |pre|);
  }
}
