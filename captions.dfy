/**
 * The caption list a live-transcription view keeps, and how one transcript
 * event changes it. Every entry is keyed by its `M:SS` timestamp and its
 * `Speaker N` label. A final event finalises every entry with its key (or
 * appends one); an interim event rewrites the first entry with its key if that
 * entry is still interim, and otherwise appends. The list keeps insertion
 * order; nothing sorts or removes entries.
 */
module Captions {
  import opened Wrappers
  import opened Decimal
  import opened Timestamp
  import opened CaptionText

  /** `{ caption, timestamp, speaker, isFinal }` */
  datatype Caption = Caption(caption: string, timestamp: string, speaker: string, isFinal: bool)

  /**
   * A transcript event once its payload is unpacked: whether it is final, the
   * words array of its first alternative (None when absent), and the start
   * offset and speaker of its first word.
   */
  datatype TranscriptEvent = TranscriptEvent(
    isFinal: bool,
    words: Option<seq<Word>>,
    startSeconds: real,
    speaker: Option<int>)

  /** `Speaker ${speaker}`; an absent speaker renders as `undefined`. */
  function SpeakerLabel(speaker: Option<int>): string {
    "Speaker " + match speaker
      case None => "undefined"
      case Some(n) => IntToString(n)
  }

  /** Different speakers, an absent one included, get different labels. */
  lemma SpeakerLabelInjective(a: Option<int>, b: Option<int>)
    ensures SpeakerLabel(a) == SpeakerLabel(b) <==> a == b
  {
    if a.Some? && b.Some? {
      IntToStringInjective(a.value, b.value);
      assert SpeakerLabel(a)[8..] == IntToString(a.value);
      assert SpeakerLabel(b)[8..] == IntToString(b.value);
    } else if a.Some? && b.None? {
      assert SpeakerLabel(a)[8] != SpeakerLabel(b)[8];
    } else if a.None? && b.Some? {
      assert SpeakerLabel(a)[8] != SpeakerLabel(b)[8];
    }
  }

  predicate HasKey(c: Caption, timestamp: string, speaker: string) {
    c.timestamp == timestamp && c.speaker == speaker
  }

  predicate SameKey(a: Caption, b: Caption) {
    HasKey(a, b.timestamp, b.speaker)
  }

  /** `findIndex`: the first entry with the key, or -1. */
  function FindIndex(cs: seq<Caption>, timestamp: string, speaker: string): (i: int)
    ensures -1 <= i < |cs|
    ensures i == -1 <==> forall j :: 0 <= j < |cs| ==> !HasKey(cs[j], timestamp, speaker)
    ensures i >= 0 ==> HasKey(cs[i], timestamp, speaker)
    ensures i >= 0 ==> forall j :: 0 <= j < i ==> !HasKey(cs[j], timestamp, speaker)
    decreases |cs|
  {
    if cs == [] then -1
    else if HasKey(cs[0], timestamp, speaker) then 0
    else
      var k := FindIndex(cs[1..], timestamp, speaker);
      if k == -1 then -1 else k + 1
  }

  /** `find`: the first entry with the key, if any. */
  function Find(cs: seq<Caption>, timestamp: string, speaker: string): (r: Option<Caption>)
    ensures r.None? <==> forall j :: 0 <= j < |cs| ==> !HasKey(cs[j], timestamp, speaker)
    ensures r.Some? ==> r.value == cs[FindIndex(cs, timestamp, speaker)]
    decreases |cs|
  {
    if cs == [] then None
    else if HasKey(cs[0], timestamp, speaker) then Some(cs[0])
    else Find(cs[1..], timestamp, speaker)
  }

  /** The `map` of the final branch: every entry with the key takes the text and becomes final. */
  function FinaliseMatching(cs: seq<Caption>, text: string, timestamp: string, speaker: string): (r: seq<Caption>)
    ensures |r| == |cs|
    ensures forall i :: 0 <= i < |cs| ==>
      r[i] == if HasKey(cs[i], timestamp, speaker) then cs[i].(caption := text, isFinal := true) else cs[i]
    decreases |cs|
  {
    if cs == [] then []
    else
      var head := if HasKey(cs[0], timestamp, speaker) then cs[0].(caption := text, isFinal := true) else cs[0];
      [head] + FinaliseMatching(cs[1..], text, timestamp, speaker)
  }

  /**
   * The final branch. Every entry with the key takes the text and finality,
   * every other entry is left alone, and one final entry is appended exactly
   * when no entry had the key.
   */
  function ApplyFinal(cs: seq<Caption>, text: string, timestamp: string, speaker: string): (r: seq<Caption>)
    ensures |r| == |cs| <==> exists j :: 0 <= j < |cs| && HasKey(cs[j], timestamp, speaker)
    ensures |r| == |cs| || |r| == |cs| + 1
    ensures forall i :: 0 <= i < |cs| && HasKey(cs[i], timestamp, speaker) ==>
      r[i] == Caption(text, timestamp, speaker, true)
    ensures forall i :: 0 <= i < |cs| && !HasKey(cs[i], timestamp, speaker) ==> r[i] == cs[i]
    ensures |r| == |cs| + 1 ==> r[|cs|] == Caption(text, timestamp, speaker, true)
  {
    var updated := FinaliseMatching(cs, text, timestamp, speaker);
    if Find(updated, timestamp, speaker).None? then
      updated + [Caption(text, timestamp, speaker, true)]
    else
      updated
  }

  /**
   * The interim branch. When the first entry with the key is interim, only
   * that entry changes, and only in its text; otherwise (no entry with the key,
   * or a final one first) the list is kept and one interim entry with the key
   * is appended.
   */
  function ApplyInterim(cs: seq<Caption>, text: string, timestamp: string, speaker: string): (r: seq<Caption>)
    ensures |r| == |cs| || |r| == |cs| + 1
    ensures forall i :: 0 <= i < |cs| && cs[i].isFinal ==> r[i] == cs[i]
    ensures forall i :: 0 <= i < |cs| ==> r[i] == cs[i] || r[i] == cs[i].(caption := text)
    ensures forall i, j :: 0 <= i < j < |cs| && r[i] != cs[i] ==> r[j] == cs[j]
    ensures |r| == |cs| + 1 ==> r[..|cs|] == cs && r[|cs|] == Caption(text, timestamp, speaker, false)
    ensures forall i :: 0 <= i < |cs| && r[i] != cs[i] ==> i == FindIndex(cs, timestamp, speaker)
    ensures |r| == |cs| + 1 <==>
      (FindIndex(cs, timestamp, speaker) == -1 || cs[FindIndex(cs, timestamp, speaker)].isFinal)
  {
    var i := FindIndex(cs, timestamp, speaker);
    if i != -1 && !cs[i].isFinal then
      cs[i := cs[i].(caption := text)]
    else
      cs + [Caption(text, timestamp, speaker, false)]
  }

  /** The transcript handler: nothing happens unless the event carries at least one word. */
  function OnTranscript(cs: seq<Caption>, e: TranscriptEvent): (r: seq<Caption>)
    ensures (e.words.None? || e.words == Some([])) ==> r == cs
    ensures Extends(cs, r)
    ensures |r| <= |cs| + 1
  {
    match e.words
    case None => cs
    case Some(ws) =>
      if |ws| == 0 then cs
      else
        var timestamp := FormatTimestamp(e.startSeconds);
        var speaker := SpeakerLabel(e.speaker);
        var text := Text(ws);
        if e.isFinal then ApplyFinal(cs, text, timestamp, speaker)
        else ApplyInterim(cs, text, timestamp, speaker)
  }

  /**
   * Events applied one after another, in delivery order. However many arrive,
   * the list only grows at the end, by one entry per event at most.
   */
  function Replay(cs: seq<Caption>, events: seq<TranscriptEvent>): (r: seq<Caption>)
    ensures Extends(cs, r)
    ensures |r| <= |cs| + |events|
    decreases |events|
  {
    if events == [] then cs
    else
      var next := OnTranscript(cs, events[0]);
      var rest := Replay(next, events[1..]);
      ExtendsTransitive(cs, next, rest);
      rest
  }

  /**
   * `after` is `before` grown at the end: no entry removed or moved, every key
   * kept in place, no final entry turned back to interim.
   */
  ghost predicate Extends(before: seq<Caption>, after: seq<Caption>) {
    |before| <= |after| &&
    forall i :: 0 <= i < |before| ==>
      SameKey(before[i], after[i]) && (before[i].isFinal ==> after[i].isFinal)
  }

  /** At most one entry per (timestamp, speaker). */
  ghost predicate OnePerKey(cs: seq<Caption>) {
    forall i, j :: 0 <= i < j < |cs| ==> !SameKey(cs[i], cs[j])
  }

  /** An interim event whose first matching entry is interim rewrites that entry's text and nothing else. */
  lemma InterimUpdatesInPlace(cs: seq<Caption>, text: string, timestamp: string, speaker: string, i: nat)
    requires i < |cs| && HasKey(cs[i], timestamp, speaker) && !cs[i].isFinal
    requires forall j :: 0 <= j < i ==> !HasKey(cs[j], timestamp, speaker)
    ensures var r := ApplyInterim(cs, text, timestamp, speaker);
      |r| == |cs| &&
      r[i] == Caption(text, timestamp, speaker, false) &&
      forall j :: 0 <= j < |cs| && j != i ==> r[j] == cs[j]
  {
  }

  /** An interim event with no matching entry appends one interim entry. */
  lemma InterimAppendsNew(cs: seq<Caption>, text: string, timestamp: string, speaker: string)
    requires forall j :: 0 <= j < |cs| ==> !HasKey(cs[j], timestamp, speaker)
    ensures ApplyInterim(cs, text, timestamp, speaker) == cs + [Caption(text, timestamp, speaker, false)]
  {
  }

  /**
   * An interim event whose first matching entry is already final leaves that
   * entry, and all others, as they were, and appends one interim entry.
   */
  lemma InterimAppendsAfterFinal(cs: seq<Caption>, text: string, timestamp: string, speaker: string, i: nat)
    requires i < |cs| && HasKey(cs[i], timestamp, speaker) && cs[i].isFinal
    requires forall j :: 0 <= j < i ==> !HasKey(cs[j], timestamp, speaker)
    ensures ApplyInterim(cs, text, timestamp, speaker) == cs + [Caption(text, timestamp, speaker, false)]
  {
  }

  /** A final event keeps "at most one entry per key". */
  lemma FinalKeepsOnePerKey(cs: seq<Caption>, text: string, timestamp: string, speaker: string)
    requires OnePerKey(cs)
    ensures OnePerKey(ApplyFinal(cs, text, timestamp, speaker))
  {
  }

  /** An interim event keeps "at most one entry per key" unless the entry with its key is already final. */
  lemma InterimKeepsOnePerKey(cs: seq<Caption>, text: string, timestamp: string, speaker: string)
    requires OnePerKey(cs)
    requires forall j :: 0 <= j < |cs| && HasKey(cs[j], timestamp, speaker) ==> !cs[j].isFinal
    ensures OnePerKey(ApplyInterim(cs, text, timestamp, speaker))
  {
  }

  /** An interim event after a final one with the same key leaves two entries with that key. */
  lemma InterimAfterFinalDuplicates(cs: seq<Caption>, text: string, timestamp: string, speaker: string, i: nat)
    requires i < |cs| && HasKey(cs[i], timestamp, speaker) && cs[i].isFinal
    requires forall j :: 0 <= j < i ==> !HasKey(cs[j], timestamp, speaker)
    ensures !OnePerKey(ApplyInterim(cs, text, timestamp, speaker))
  {
    InterimAppendsAfterFinal(cs, text, timestamp, speaker, i);
    var r := ApplyInterim(cs, text, timestamp, speaker);
    assert SameKey(r[i], r[|cs|]);
  }

  lemma ExtendsTransitive(a: seq<Caption>, b: seq<Caption>, c: seq<Caption>)
    requires Extends(a, b) && Extends(b, c)
    ensures Extends(a, c)
  {
  }

  /** Final events only: the list keeps at most one entry per key. */
  lemma {:induction false} FinalReplayKeepsOnePerKey(cs: seq<Caption>, events: seq<TranscriptEvent>)
    requires OnePerKey(cs)
    requires forall k :: 0 <= k < |events| ==> events[k].isFinal
    ensures OnePerKey(Replay(cs, events))
    decreases |events|
  {
    if events != [] {
      var e := events[0];
      if e.words.Some? && |e.words.value| > 0 {
        FinalKeepsOnePerKey(cs, Text(e.words.value), FormatTimestamp(e.startSeconds), SpeakerLabel(e.speaker));
      }
      FinalReplayKeepsOnePerKey(OnTranscript(cs, e), events[1..]);
    }
  }

  /** An event with words whose key no entry has appends one entry with that key and its text. */
  lemma NewKeyAppends(cs: seq<Caption>, e: TranscriptEvent)
    requires e.words.Some? && |e.words.value| > 0
    requires forall j :: 0 <= j < |cs| ==>
      !HasKey(cs[j], FormatTimestamp(e.startSeconds), SpeakerLabel(e.speaker))
    ensures OnTranscript(cs, e) ==
      cs + [Caption(Text(e.words.value), FormatTimestamp(e.startSeconds), SpeakerLabel(e.speaker), e.isFinal)]
  {
    var text, ts, sp := Text(e.words.value), FormatTimestamp(e.startSeconds), SpeakerLabel(e.speaker);
    if e.isFinal {
      assert OnTranscript(cs, e) == ApplyFinal(cs, text, ts, sp);
    } else {
      assert OnTranscript(cs, e) == ApplyInterim(cs, text, ts, sp);
    }
  }

  /** Two events at the same offset from different speakers give two entries. */
  lemma DistinctSpeakersDistinctEntries(e1: TranscriptEvent, e2: TranscriptEvent)
    requires e1.words.Some? && |e1.words.value| > 0
    requires e2.words.Some? && |e2.words.value| > 0
    requires e1.startSeconds == e2.startSeconds && e1.speaker != e2.speaker
    ensures var r := Replay([], [e1, e2]);
      |r| == 2 && !SameKey(r[0], r[1])
  {
    SpeakerLabelInjective(e1.speaker, e2.speaker);
    NewKeyAppends([], e1);
    var r1 := OnTranscript([], e1);
    NewKeyAppends(r1, e2);
    var r2 := OnTranscript(r1, e2);
    assert [e1, e2][1..] == [e2];
    assert Replay(r1, [e2]) == Replay(r2, []) == r2;
  }

  /** 5 seconds in is `0:05`. */
  lemma FiveSecondsLabel()
    ensures FormatTimestamp(5.0) == "0:05"
  {
    Components(5.0);
    assert 5.0.Floor == 5;
    assert Minutes(5.0) == 0 && Seconds(5.0) == 5;
  }

  /** The texts of the scenario's two events. */
  lemma HolaTexts()
    ensures Text([Word("hola", None)]) == "hola"
    ensures Text([Word("hola", None), Word("mundo", None)]) == "hola mundo"
  {
  }

  /** Speaker 0's label. */
  lemma SpeakerZero()
    ensures SpeakerLabel(Some(0)) == "Speaker 0"
  {
  }

  /** Interim `hola` then final `hola mundo` at 0:05 for speaker 0 leave one final entry. */
  lemma InterimThenFinal()
    ensures Replay([], [
      TranscriptEvent(false, Some([Word("hola", None)]), 5.0, Some(0)),
      TranscriptEvent(true, Some([Word("hola", None), Word("mundo", None)]), 5.0, Some(0))])
      == [Caption("hola mundo", "0:05", "Speaker 0", true)]
  {
    var e1 := TranscriptEvent(false, Some([Word("hola", None)]), 5.0, Some(0));
    var e2 := TranscriptEvent(true, Some([Word("hola", None), Word("mundo", None)]), 5.0, Some(0));
    FiveSecondsLabel();
    HolaTexts();
    SpeakerZero();
    var r1 := OnTranscript([], e1);
    assert r1 == ApplyInterim([], "hola", "0:05", "Speaker 0");
    assert r1 == [Caption("hola", "0:05", "Speaker 0", false)];
    var r2 := OnTranscript(r1, e2);
    assert r2 == ApplyFinal(r1, "hola mundo", "0:05", "Speaker 0");
    assert HasKey(r1[0], "0:05", "Speaker 0");
    assert r2 == [Caption("hola mundo", "0:05", "Speaker 0", true)];
    assert [e1, e2][1..] == [e2];
    assert Replay(r1, [e2]) == Replay(r2, []) == r2;
  }
}
