# Live transcription captions and audio relay, in Dafny

This project models the core of the `Microphone` component of a Next.js
live-transcription starter (`app/microphone.tsx`). The component does two
things that can be modelled.

- **Caption reconciliation.** The component receives transcript events from
  the speech-recognition connection and keeps a list of captions. Each caption
  is `{caption, timestamp, speaker, isFinal}`.
  - An event is used only when it carries at least one word.
  - Its key is the `M:SS` timestamp of its first word's start offset together
    with the label `Speaker N`.
  - Its text is each word's punctuated form, falling back to the raw word,
    joined by single spaces.
  - A *final* event finalises every entry with its key, giving each the new
    text. It appends a final entry when no entry has the key.
  - An *interim* event rewrites the text of the first entry with its key, if
    that entry is still interim. Otherwise it appends an interim entry.
  - The list is never sorted and no entry is ever removed.

  Files: `timestamp.dfy`, `decimal.dfy`, `caption_text.dfy`, `captions.dfy`.
  All of it is written as pure functions over sequences, as the source's
  `map`/`find`/`findIndex`/spread updaters are.
- **Audio relay.** Recorded chunks are queued. A processing step is guarded by
  a busy flag. While the connection is listening, it sends the queue head and
  drops it from the queue. It then starts a 250 ms cooldown, and only the
  cooldown's expiry clears the busy flag. `relay.dfy` models this as a class
  `AudioRelay` with fields `queue`, `isProcessing`, `isListening` and a log
  `sent`. Its methods are `Add`, `Open`, `Close`, `Tick` and `CooldownExpired`.
  The timer is the explicit event `CooldownExpired`.
  - The invariant `Valid()` states that `sent + queue` equals every chunk ever
    added, and that at most one chunk is sent per cooldown window.

The code, and so the model:
- does not sort captions by time;
- does not reject an event whose joined text is empty, and ignores only a
  missing or empty words array;
- does not clear captions when the connection closes;
- keys captions by timestamp and speaker only, with no offset-keyed variant;
- can hold two entries with one key, because an interim event after a final
  one appends a second entry.

## Model

| member | source | states |
|---|---|---|
| `Timestamp.Components` | app/microphone.tsx:124-125 | for an offset s >= 0, minutes are floor(s)/60 and seconds floor(s) mod 60, so seconds lie in 0..59 (JavaScript's truncating `%` written out) |
| `Timestamp.FormatTimestamp` | app/microphone.tsx:124-126 | the label of an offset s >= 0 reads back as (floor(s)/60, floor(s) mod 60) under a parser that accepts only unpadded minutes, `:` and exactly two second digits |
| `Timestamp.ParseLabel` | app/microphone.tsx:126 | `${minutes}:${pad}${seconds}` with minutes >= 0 and seconds in 0..59 reads back as those two numbers |
| `Timestamp.ParseTimestampCanonical` | app/microphone.tsx:126 | any string that reads back as (m, sec) is exactly the label of (m, sec), so the minutes are never padded and the seconds always have two digits |
| `Timestamp.SameLabelIff` | app/microphone.tsx:124-126 | two non-negative offsets get the same label if and only if they fall in the same whole second |
| `Timestamp.SixtyFiveSeconds` | app/microphone.tsx:126 | offset 65 gives `1:05` |
| `Decimal.NatToString` | app/microphone.tsx:126 | a number renders as a non-empty string of digits with no leading zero unless it is 0, two digits for 10..99 |
| `Decimal.ParseNatCanonical` | app/microphone.tsx:126 | a digit string with no leading zero (or a lone `0`) is exactly the rendering of the value it reads as |
| `Decimal.ParseIntToString` | app/microphone.tsx:134 | rendering an integer in a template literal can be undone by parsing |
| `Decimal.IntToStringInjective` | app/microphone.tsx:134 | different integers render differently |
| `CaptionText.WordText` | app/microphone.tsx:128 | a word's text is its `punctuated_word` when present, otherwise its `word` |
| `CaptionText.Text` | app/microphone.tsx:128 | for a non-empty word list whose texts contain no space, splitting the caption text at spaces gives back the word texts in order |
| `CaptionText.SplitJoin` | app/microphone.tsx:128 | `Join`, the model of `join(" ")`, applied to a non-empty list of space-free pieces is undone by splitting at spaces |
| `Captions.SpeakerLabelInjective` | app/microphone.tsx:134 | `SpeakerLabel`, the model of `Speaker ${speaker}`, gives equal labels if and only if the speakers are equal, an absent speaker included |
| `Captions.FindIndex` | app/microphone.tsx:149 | -1 exactly when no entry has the key, otherwise the index of the first entry with it |
| `Captions.Find` | app/microphone.tsx:140 | None exactly when no entry has the key, otherwise the first entry with it, the one at `FindIndex` |
| `Captions.FinaliseMatching` | app/microphone.tsx:133-137 | same length; every entry with the key takes the text and becomes final, every other entry is unchanged |
| `Captions.OnTranscript` | app/microphone.tsx:119-160 | an event with no words array or an empty one leaves the list unchanged; every event keeps each existing entry's key in place, never turns a final entry interim, and adds at most one entry |
| `Captions.ApplyFinal` | app/microphone.tsx:130-145 | a final event sets text and isFinal on every entry with its key, leaves every other entry unchanged, and appends one final entry if and only if no entry had the key |
| `Captions.InterimUpdatesInPlace` | app/microphone.tsx:149-154 | when the first entry with the key is interim, only its text changes; length and all other entries stay |
| `Captions.InterimAppendsNew` | app/microphone.tsx:150-157 | with no entry for the key, exactly one interim entry is appended |
| `Captions.InterimAppendsAfterFinal` | app/microphone.tsx:150-157 | when the first entry with the key is final, the list is kept as it was and one interim entry is appended |
| `Captions.ApplyInterim` | app/microphone.tsx:148-159 | an interim event never changes a final entry; only the first entry with the key can change, and only in its text; one interim entry with the key is appended, the old list kept, if and only if no entry has the key or the first one with it is final |
| `Captions.FinalKeepsOnePerKey` | app/microphone.tsx:133-142 | a final event keeps "at most one entry per (timestamp, speaker)" |
| `Captions.InterimKeepsOnePerKey` | app/microphone.tsx:149-157 | an interim event keeps "at most one entry per key" when the entry with its key is not final |
| `Captions.InterimAfterFinalDuplicates` | app/microphone.tsx:150-157 | an interim event after a final entry with its key leaves two entries with that key |
| `Captions.Replay` | app/microphone.tsx:111-161 | over any sequence of events the list only grows at the end, by at most one entry per event, with keys in place and finality never lost |
| `Captions.FinalReplayKeepsOnePerKey` | app/microphone.tsx:130-145 | any sequence of final events keeps at most one entry per key |
| `Captions.NewKeyAppends` | app/microphone.tsx:119-157 | an event with words whose key no entry has appends exactly one entry with that key, its text and its finality |
| `Captions.DistinctSpeakersDistinctEntries` | app/microphone.tsx:134 | two events at the same offset from different speakers give two entries with different keys |
| `Captions.InterimThenFinal` | app/microphone.tsx:130-157 | interim `hola` then final `hola mundo` at 5 s for speaker 0 give the single final entry `hola mundo`, `0:05`, `Speaker 0` |
| `Relay.AudioRelay.constructor` | app/microphone.tsx:20-26 | the relay starts with an empty queue, nothing sent, not busy, not listening |
| `Relay.AudioRelay.Add` | app/microphone.tsx:58-59 | the chunk joins the end of the queue; nothing else changes; no chunk is lost |
| `Relay.AudioRelay.Open` | app/microphone.tsx:99-102 | sets `isListening`; queue, log and busy flag unchanged |
| `Relay.AudioRelay.Close` | app/microphone.tsx:104-109 | clears `isListening` and keeps the queue, so chunks accumulate |
| `Relay.AudioRelay.Tick` | app/microphone.tsx:170-183 | no-op with an empty queue or while busy; otherwise sets busy and, only while listening, sends exactly the queue head and drops it; never clears busy; the FIFO invariant holds |
| `Relay.AudioRelay.CooldownExpired` | app/microphone.tsx:180-183 | only this clears `isProcessing`; nothing else changes |
| `Relay.DrainAfterOpen` | app/microphone.tsx:58-59 | three chunks queued before the connection opens are sent after it opens in their recording order, one per cooldown window, and the queue ends empty |

## Left out

- React machinery: `useState`, `useEffect` and `useCallback` scheduling,
  re-render timing and the JSX rendering, including the `className`
  expression of the record button. These are UI concerns.
- Browser audio capture: `getUserMedia`, `MediaRecorder` start and stop in
  `toggleMicrophone`, and the `micOpen` flag. These are host APIs.
- The API key fetch from `/api` and its `"key" in object` check. This is
  network I/O.
- The transcription SDK: `createClient`, `listen.live` and its options. Sending
  a chunk is modelled as appending it to the `sent` log.
- `Relay.AudioRelay.Close`: it does not model that closing also drops the API
  key and the connection, which makes the component fetch a new key and open
  a new connection. That is the same network I/O.
- `Relay.AudioRelay.Tick`: it does not model `connection?.send` with no
  connection. It assumes a connection exists whenever the relay is listening.
  The component stores the connection when it creates it, before the
  connection's open event can set `isListening`, and only the close handler
  clears the two, together.
- Real time: the 250 ms `setTimeout` is the explicit `CooldownExpired` event.
  No clock is modelled.
- Floating point: an offset is a mathematical `real`, not an IEEE double.
  Number-to-string rendering covers integers in plain decimal only, with no
  exponent form for huge values.
- Payload extraction: taking `channel.alternatives[0].words`, and the start and
  speaker from the first word, is done before the model. An event arrives as
  `TranscriptEvent(isFinal, words, startSeconds, speaker)`, with an absent
  speaker rendered as `undefined`.
- Labels of negative offsets: they are computed as the code computes them,
  with the truncating `%`, but no property is stated about them.
